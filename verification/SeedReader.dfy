/** The reader of seed files: comma-separated values with a header line. */
module SeedReader {
  import opened Prelude
  import opened Text

  /** JavaScript's white space and line terminators. */
  predicate IsSpace(c: char) {
    || '\U{0009}' <= c <= '\U{000D}' || c == ' ' || c == '\U{00A0}' || c == '\U{1680}'
    || '\U{2000}' <= c <= '\U{200A}' || c == '\U{2028}' || c == '\U{2029}' || c == '\U{202F}'
    || c == '\U{205F}' || c == '\U{3000}' || c == '\U{FEFF}'
  }

  predicate IsBlank(s: string) {
    forall i :: 0 <= i < |s| ==> IsSpace(s[i])
  }

  function TrimEnd(s: string): string {
    if s != "" && IsSpace(s[|s| - 1]) then TrimEnd(s[..|s| - 1]) else s
  }

  /** Where a comma followed by nothing but white space is first found, or the length. */
  function TrailingComma(s: string, from: nat): (i: nat)
    requires from <= |s|
    ensures from <= i <= |s|
    ensures i < |s| ==> s[i] == ',' && IsBlank(s[i + 1..])
    ensures forall j :: from <= j < i ==> !(s[j] == ',' && IsBlank(s[j + 1..]))
    decreases |s| - from
  {
    if from == |s| || (s[from] == ',' && IsBlank(s[from + 1..])) then from else TrailingComma(s, from + 1)
  }

  /** `s.replace(/,\s*$/, '')` */
  function StripComma(s: string): string {
    s[..TrailingComma(s, 0)]
  }

  function Split(s: string, sep: char): (parts: seq<string>)
    ensures |parts| > 0
  {
    if s == "" then [""]
    else
      var rest := Split(s[1..], sep);
      if s[0] == sep then [""] + rest else [[s[0]] + rest[0]] + rest[1..]
  }

  function Join(parts: seq<string>, sep: char): string {
    if parts == [] then ""
    else if |parts| == 1 then parts[0]
    else parts[0] + [sep] + Join(parts[1..], sep)
  }

  type Seed = map<string, Option<string>>

  /** The text `null` stands for null. */
  function Decode(cell: string): Option<string> {
    if cell == "null" then None else Some(cell)
  }

  /** `columnNames[index]` as a property name. */
  function ColumnName(columnNames: seq<string>, index: nat): string {
    if index < |columnNames| then columnNames[index] else "undefined"
  }

  /** The object made of the first `n` cells; a later cell overrides an earlier one. */
  function RowObject(columnNames: seq<string>, cells: seq<string>, n: nat): Seed
    requires n <= |cells|
  {
    if n == 0 then map[]
    else RowObject(columnNames, cells, n - 1)[ColumnName(columnNames, n - 1) := Decode(cells[n - 1])]
  }

  function Sliced(data: string): (lines: seq<seq<string>>)
    ensures |lines| > 0
  {
    var lines := Split(StripComma(TrimEnd(data)), '\n');
    seq(|lines|, i requires 0 <= i < |lines| => Split(lines[i], ','))
  }

  /** One object for every line after the header. */
  function Loaded(data: string): (seeds: seq<Seed>)
    ensures |seeds| == |Sliced(data)| - 1
  {
    var sliced := Sliced(data);
    seq(|sliced| - 1, k requires 0 <= k < |sliced| - 1 => RowObject(sliced[0], sliced[k + 1], |sliced[k + 1]|))
  }

  method LoadSeeds(data: string) returns (seeds: seq<Seed>)
    ensures seeds == Loaded(data)
  {
    var sliced := Sliced(data);
    var columnNames := sliced[0];
    var rows := sliced[1..];
    seeds := [];
    for k := 0 to |rows|
      invariant |seeds| == k
      invariant forall m :: 0 <= m < k ==> seeds[m] == RowObject(columnNames, rows[m], |rows[m]|)
    {
      var obj := LoadRow(columnNames, rows[k]);
      seeds := seeds + [obj];
    }
  }

  /** The inner loop. */
  method LoadRow(columnNames: seq<string>, cells: seq<string>) returns (obj: Seed)
    ensures obj == RowObject(columnNames, cells, |cells|)
  {
    obj := map[];
    for index := 0 to |cells|
      invariant obj == RowObject(columnNames, cells, index)
    {
      var value := if cells[index] == "null" then None else Some(cells[index]);
      obj := obj[ColumnName(columnNames, index) := value];
    }
  }

  // ---------------------------------------------------------------- reading inverts rendering

  function RenderLines(lines: seq<seq<string>>): (texts: seq<string>)
    ensures |texts| == |lines|
  {
    seq(|lines|, i requires 0 <= i < |lines| => Join(lines[i], ','))
  }

  function Render(lines: seq<seq<string>>): string {
    Join(RenderLines(lines), '\n')
  }

  predicate Free(s: string, c: char) {
    c !in s
  }

  lemma {:induction false} SplitOne(s: string, sep: char)
    requires Free(s, sep)
    ensures Split(s, sep) == [s]
  {
    if s != "" {
      SplitOne(s[1..], sep);
      assert s == [s[0]] + s[1..];
    }
  }

  lemma {:induction false} SplitPrefix(a: string, sep: char, b: string)
    requires Free(a, sep)
    ensures Split(a + [sep] + b, sep) == [a] + Split(b, sep)
  {
    var s := a + [sep] + b;
    if a == "" {
      assert s[1..] == b;
    } else {
      assert s[1..] == a[1..] + [sep] + b;
      SplitPrefix(a[1..], sep, b);
      assert a == [a[0]] + a[1..];
    }
  }

  lemma {:induction false} SplitInvertsJoin(parts: seq<string>, sep: char)
    requires parts != [] && forall i :: 0 <= i < |parts| ==> Free(parts[i], sep)
    ensures Split(Join(parts, sep), sep) == parts
  {
    if |parts| == 1 {
      SplitOne(parts[0], sep);
    } else {
      SplitPrefix(parts[0], sep, Join(parts[1..], sep));
      SplitInvertsJoin(parts[1..], sep);
    }
  }

  lemma {:induction false} JoinIsFree(parts: seq<string>, sep: char, c: char)
    requires c != sep && forall i :: 0 <= i < |parts| ==> Free(parts[i], c)
    ensures Free(Join(parts, sep), c)
  {
    if |parts| > 1 {
      JoinIsFree(parts[1..], sep, c);
    }
  }

  lemma {:induction false} JoinEndsWithLast(parts: seq<string>, sep: char)
    requires parts != [] && parts[|parts| - 1] != ""
    ensures var s, last := Join(parts, sep), parts[|parts| - 1]; s != "" && s[|s| - 1] == last[|last| - 1]
  {
    if |parts| > 1 {
      JoinEndsWithLast(parts[1..], sep);
    }
  }

  /** Lines of cells that contain neither commas nor newlines. */
  predicate AreCells(lines: seq<seq<string>>) {
    && lines != []
    && (forall k :: 0 <= k < |lines| ==> lines[k] != [])
    && (forall k, i :: 0 <= k < |lines| && 0 <= i < |lines[k]| ==> Free(lines[k][i], ',') && Free(lines[k][i], '\n'))
  }

  function LastCell(lines: seq<seq<string>>): string
    requires AreCells(lines)
  {
    var last := lines[|lines| - 1];
    last[|last| - 1]
  }

  predicate EndsVisibly(s: string) {
    s != "" && !IsSpace(s[|s| - 1])
  }

  /** A table: a header of distinct names, rows no longer than the header, and a last cell
      that ends in something visible. */
  predicate IsTable(lines: seq<seq<string>>) {
    && AreCells(lines)
    && (forall k :: 0 <= k < |lines| ==> |lines[k]| <= |lines[0]|)
    && AreDistinct(lines[0])
    && EndsVisibly(LastCell(lines))
  }

  predicate AreDistinct(names: seq<string>) {
    forall i, j :: 0 <= i < |names| && 0 <= j < |names| && names[i] == names[j] ==> i == j
  }

  /** What may follow the last cell: blanks, or a comma and blanks. */
  predicate IsTail(tail: string) {
    IsBlank(tail) || (tail != "" && tail[0] == ',' && IsBlank(tail[1..]))
  }

  lemma {:induction false} TrimBlanks(s: string, blanks: string)
    requires IsBlank(blanks) && (s == "" || !IsSpace(s[|s| - 1]))
    ensures TrimEnd(s + blanks) == s
  {
    if blanks == "" {
      assert s + blanks == s;
    } else {
      assert (s + blanks)[..|s + blanks| - 1] == s + blanks[..|blanks| - 1];
      TrimBlanks(s, blanks[..|blanks| - 1]);
    }
  }

  /** Trimming and stripping take exactly the tail away. */
  lemma TailIsStripped(s: string, tail: string)
    requires s != "" && !IsSpace(s[|s| - 1]) && s[|s| - 1] != ',' && IsTail(tail)
    ensures StripComma(TrimEnd(s + tail)) == s
  {
    if IsBlank(tail) {
      TrimBlanks(s, tail);
      NoTrailingComma(s, s);
    } else {
      ConcatAssociates(s, ",", tail[1..]);
      assert tail == "," + tail[1..];
      TrimBlanks(s + ",", tail[1..]);
      CommaIsStripped(s);
    }
  }

  lemma CommaIsStripped(s: string)
    requires s != "" && !IsSpace(s[|s| - 1]) && s[|s| - 1] != ','
    ensures StripComma(s + ",") == s
  {
    var t := s + ",";
    NoTrailingComma(s, t);
    assert t[|s|] == ',' && t[|s| + 1..] == "";
    assert TrailingComma(t, 0) == |s|;
  }

  lemma NoTrailingComma(s: string, t: string)
    requires s != "" && !IsSpace(s[|s| - 1]) && s[|s| - 1] != ',' && s <= t
    ensures TrailingComma(t, 0) >= |s|
  {
    forall j | 0 <= j < |s|
      ensures !(t[j] == ',' && IsBlank(t[j + 1..]))
    {
      if j < |s| - 1 {
        assert t[j + 1..][|s| - 2 - j] == s[|s| - 1];
      }
    }
  }

  lemma RenderedLineIsSplit(cells: seq<string>)
    requires cells != [] && forall i :: 0 <= i < |cells| ==> Free(cells[i], ',') && Free(cells[i], '\n')
    ensures Split(Join(cells, ','), ',') == cells && Free(Join(cells, ','), '\n')
  {
    SplitInvertsJoin(cells, ',');
    JoinIsFree(cells, ',', '\n');
  }

  /** Cutting a rendered table into lines and cells gives the table back. */
  lemma SlicedInvertsRender(lines: seq<seq<string>>, tail: string)
    requires AreCells(lines) && EndsVisibly(LastCell(lines)) && IsTail(tail)
    ensures Sliced(Render(lines) + tail) == lines
  {
    var texts := RenderLines(lines);
    forall k | 0 <= k < |lines|
      ensures Split(texts[k], ',') == lines[k] && Free(texts[k], '\n')
    {
      RenderedLineIsSplit(lines[k]);
    }
    SplitInvertsJoin(texts, '\n');
    RenderEndsVisibly(lines);
    TailIsStripped(Render(lines), tail);
    assert Split(StripComma(TrimEnd(Render(lines) + tail)), '\n') == texts;
  }

  lemma RenderEndsVisibly(lines: seq<seq<string>>)
    requires AreCells(lines) && EndsVisibly(LastCell(lines))
    ensures var s := Render(lines); s != "" && !IsSpace(s[|s| - 1]) && s[|s| - 1] != ','
  {
    var lastLine := lines[|lines| - 1];
    var last := lastLine[|lastLine| - 1];
    JoinEndsWithLast(lastLine, ',');
    JoinEndsWithLast(RenderLines(lines), '\n');
    assert last[|last| - 1] in last;
  }

  // ---------------------------------------------------------------- exactly the tables that come back

  lemma {:induction false} JoinInvertsSplit(s: string, sep: char)
    ensures Join(Split(s, sep), sep) == s
    ensures forall i :: 0 <= i < |Split(s, sep)| ==> Free(Split(s, sep)[i], sep)
  {
    if s != "" {
      JoinInvertsSplit(s[1..], sep);
      var rest := Split(s[1..], sep);
      assert s == [s[0]] + s[1..];
      if s[0] == sep {
        assert ([""] + rest)[1..] == rest;
      } else {
        assert ([[s[0]] + rest[0]] + rest[1..])[1..] == rest[1..];
        JoinStartsWithFirst([s[0]], rest, sep);
      }
    }
  }

  lemma {:induction false} SplitKeepsFree(s: string, sep: char, c: char)
    requires Free(s, c)
    ensures forall i :: 0 <= i < |Split(s, sep)| ==> Free(Split(s, sep)[i], c)
  {
    if s != "" {
      SplitKeepsFree(s[1..], sep, c);
    }
  }

  lemma JoinStartsWithFirst(a: string, parts: seq<string>, sep: char)
    requires parts != []
    ensures Join([a + parts[0]] + parts[1..], sep) == a + Join(parts, sep)
  {
    var longer := [a + parts[0]] + parts[1..];
    assert longer[1..] == parts[1..];
    if |parts| > 1 {
      assert a + parts[0] + [sep] + Join(parts[1..], sep) == a + (parts[0] + [sep] + Join(parts[1..], sep));
    }
  }

  /** Whatever the text, it is cut into cells, and rendering them gives the stripped text. */
  lemma RenderInvertsSliced(data: string)
    ensures AreCells(Sliced(data)) && Render(Sliced(data)) == StripComma(TrimEnd(data))
  {
    var text := StripComma(TrimEnd(data));
    var texts := Split(text, '\n');
    JoinInvertsSplit(text, '\n');
    forall k | 0 <= k < |texts|
      ensures Join(Sliced(data)[k], ',') == texts[k]
      ensures forall i :: 0 <= i < |Sliced(data)[k]| ==> Free(Sliced(data)[k][i], ',') && Free(Sliced(data)[k][i], '\n')
    {
      JoinInvertsSplit(texts[k], ',');
      SplitKeepsFree(texts[k], ',', '\n');
    }
    assert RenderLines(Sliced(data)) == texts;
  }

  lemma {:induction false} TrimmedEnd(s: string)
    ensures |TrimEnd(s)| <= |s| && (|TrimEnd(s)| == |s| ==> s == "" || EndsVisibly(s))
  {
    if s != "" && IsSpace(s[|s| - 1]) {
      TrimmedEnd(s[..|s| - 1]);
    }
  }

  /** A text that stripping leaves alone is empty or ends in neither a comma nor a blank. */
  lemma StrippedEndsVisibly(s: string)
    requires StripComma(TrimEnd(s)) == s
    ensures s == "" || (EndsVisibly(s) && s[|s| - 1] != ',')
  {
    TrimmedEnd(s);
    if s != "" {
      assert |TrimEnd(s)| == |s|;
      assert TrimEnd(s) == s;
      if s[|s| - 1] == ',' {
        assert IsBlank(s[|s|..]);
      }
    }
  }

  /** A join whose last part is empty ends with the separator, or is empty. */
  lemma {:induction false} JoinEndsWithSeparator(parts: seq<string>, sep: char)
    requires parts != [] && parts[|parts| - 1] == ""
    ensures if |parts| == 1 then Join(parts, sep) == ""
            else Join(parts, sep) != "" && Join(parts, sep)[|Join(parts, sep)| - 1] == sep
  {
    if |parts| > 1 {
      JoinEndsWithSeparator(parts[1..], sep);
    }
  }

  /** An empty last cell leaves a comma, a newline or nothing at the end of the text. */
  lemma EmptyLastCellEndsText(lines: seq<seq<string>>)
    requires AreCells(lines) && LastCell(lines) == ""
    ensures var s := Render(lines); if lines == [[""]] then s == ""
            else s != "" && (s[|s| - 1] == ',' || s[|s| - 1] == '\n')
  {
    var lastLine := lines[|lines| - 1];
    JoinEndsWithSeparator(lastLine, ',');
    if |lastLine| == 1 {
      JoinEndsWithSeparator(RenderLines(lines), '\n');
      if |lines| == 1 {
        assert lines[0] == lastLine == [""];
      }
    } else {
      JoinEndsWithLast(RenderLines(lines), '\n');
    }
  }

  /** Exactly the lines that come back as they were rendered: cells without commas and
      newlines, the last of which ends in something visible. The empty text is one empty
      cell. */
  lemma SlicedInvertsRenderIff(lines: seq<seq<string>>)
    ensures Sliced(Render(lines)) == lines <==> AreCells(lines) && (EndsVisibly(LastCell(lines)) || lines == [[""]])
  {
    var s := Render(lines);
    if AreCells(lines) && EndsVisibly(LastCell(lines)) {
      SlicedInvertsRender(lines, "");
      assert s + "" == s;
    }
    if lines == [[""]] {
      assert s == "" && Sliced("") == [[""]];
    }
    if Sliced(s) == lines {
      RenderInvertsSliced(s);
      StrippedEndsVisibly(s);
      LastCellEndsText(lines);
    }
  }

  lemma LastCellEndsText(lines: seq<seq<string>>)
    requires AreCells(lines) &&
             (Render(lines) == "" || (EndsVisibly(Render(lines)) && Render(lines)[|Render(lines)| - 1] != ','))
    ensures EndsVisibly(LastCell(lines)) || lines == [[""]]
  {
    if LastCell(lines) == "" {
      EmptyLastCellEndsText(lines);
    } else {
      JoinEndsWithLast(lines[|lines| - 1], ',');
      JoinEndsWithLast(RenderLines(lines), '\n');
    }
  }

  /** No two columns of the same name hold different values. */
  predicate Agree(columnNames: seq<string>, cells: seq<string>)
    requires |cells| <= |columnNames|
  {
    forall i, j :: 0 <= i < |cells| && 0 <= j < |cells| && columnNames[i] == columnNames[j] ==>
      Decode(cells[i]) == Decode(cells[j])
  }

  /** Exactly the first `n` cells under their column names, `null` decoded. */
  ghost predicate IsColumnwise(obj: Seed, columnNames: seq<string>, cells: seq<string>, n: nat)
    requires n <= |cells|
  {
    && (forall i :: 0 <= i < n ==>
         i < |columnNames| && columnNames[i] in obj && obj[columnNames[i]] == Decode(cells[i]))
    && (forall name :: name in obj ==> exists i :: 0 <= i < n && i < |columnNames| && name == columnNames[i])
  }

  lemma {:induction false} RowObjectIsColumnwise(columnNames: seq<string>, cells: seq<string>, n: nat)
    requires n <= |cells| <= |columnNames| && Agree(columnNames, cells)
    ensures IsColumnwise(RowObject(columnNames, cells, n), columnNames, cells, n)
  {
    if n > 0 {
      RowObjectIsColumnwise(columnNames, cells, n - 1);
      ColumnIsAdded(RowObject(columnNames, cells, n - 1), columnNames, cells, n);
    }
  }

  lemma ColumnIsAdded(obj: Seed, columnNames: seq<string>, cells: seq<string>, n: nat)
    requires 0 < n <= |cells| <= |columnNames| && Agree(columnNames, cells)
    requires IsColumnwise(obj, columnNames, cells, n - 1)
    ensures IsColumnwise(obj[columnNames[n - 1] := Decode(cells[n - 1])], columnNames, cells, n)
  {
    var longer := obj[columnNames[n - 1] := Decode(cells[n - 1])];
    forall name | name in longer
      ensures exists i :: 0 <= i < n && name == columnNames[i]
    {
      if name != columnNames[n - 1] {
        var i :| 0 <= i < n - 1 && name == columnNames[i];
      }
    }
  }

  /** The object of a row: all its cells. */
  ghost predicate IsObjectOf(obj: Seed, columnNames: seq<string>, cells: seq<string>) {
    IsColumnwise(obj, columnNames, cells, |cells|)
  }

  /** The objects of the lines after the header, in order. */
  ghost predicate AreObjectsOf(seeds: seq<Seed>, lines: seq<seq<string>>) {
    && |seeds| == |lines| - 1
    && forall k :: 0 <= k < |seeds| ==> IsObjectOf(seeds[k], lines[0], lines[k + 1])
  }

  /** The row is no longer than the header, and no column gets two values. */
  predicate Fits(columnNames: seq<string>, cells: seq<string>) {
    |cells| <= |columnNames| && Agree(columnNames, cells)
  }

  /** Exactly the rows that come back as their objects. */
  lemma RowIsObjectIff(columnNames: seq<string>, cells: seq<string>)
    ensures IsObjectOf(RowObject(columnNames, cells, |cells|), columnNames, cells) <==> Fits(columnNames, cells)
  {
    if Fits(columnNames, cells) {
      RowObjectIsColumnwise(columnNames, cells, |cells|);
    }
    if IsObjectOf(RowObject(columnNames, cells, |cells|), columnNames, cells) && |cells| > 0 {
      assert |cells| - 1 < |columnNames|;
    }
  }

  lemma DistinctNamesFit(columnNames: seq<string>, cells: seq<string>)
    requires |cells| <= |columnNames| && AreDistinct(columnNames)
    ensures Fits(columnNames, cells)
  {}

  lemma LoadedRow(data: string, lines: seq<seq<string>>, k: nat)
    requires Sliced(data) == lines && k < |lines| - 1
    ensures IsObjectOf(Loaded(data)[k], lines[0], lines[k + 1]) <==> Fits(lines[0], lines[k + 1])
  {
    assert Loaded(data)[k] == RowObject(lines[0], lines[k + 1], |lines[k + 1]|);
    RowIsObjectIff(lines[0], lines[k + 1]);
  }

  /** Reading a rendered table yields its rows, in order; one trailing comma and trailing
      blanks do no harm. */
  lemma LoadInvertsRender(lines: seq<seq<string>>, tail: string)
    requires IsTable(lines) && IsTail(tail)
    ensures AreObjectsOf(Loaded(Render(lines) + tail), lines)
  {
    var data := Render(lines) + tail;
    SlicedInvertsRender(lines, tail);
    forall k | 0 <= k < |lines| - 1
      ensures IsObjectOf(Loaded(data)[k], lines[0], lines[k + 1])
    {
      DistinctNamesFit(lines[0], lines[k + 1]);
      LoadedRow(data, lines, k);
    }
  }

  /** Of the lines that are cut as they were rendered, exactly those yield all their rows
      in which every row fits the header. */
  lemma LoadInvertsRenderIff(lines: seq<seq<string>>)
    requires Sliced(Render(lines)) == lines
    ensures AreObjectsOf(Loaded(Render(lines)), lines) <==> forall k :: 0 < k < |lines| ==> Fits(lines[0], lines[k])
  {
    var seeds := Loaded(Render(lines));
    forall k | 0 <= k < |seeds|
      ensures IsObjectOf(seeds[k], lines[0], lines[k + 1]) <==> Fits(lines[0], lines[k + 1])
    {
      LoadedRow(Render(lines), lines, k);
    }
    if AreObjectsOf(seeds, lines) {
      forall k | 0 < k < |lines|
        ensures Fits(lines[0], lines[k])
      {
        assert IsObjectOf(seeds[k - 1], lines[0], lines[k - 1 + 1]);
      }
    }
  }

  /** Cells beyond the header are not lost silently: an `undefined` column appears if and
      only if a row is longer than its header. */
  lemma {:induction false} UndefinedColumnIffRowTooLong(columnNames: seq<string>, cells: seq<string>, n: nat)
    requires n <= |cells| && "undefined" !in columnNames
    ensures "undefined" in RowObject(columnNames, cells, n) <==> n > |columnNames|
  {
    if n > 0 {
      UndefinedColumnIffRowTooLong(columnNames, cells, n - 1);
    }
  }
}
