/**
  The text format of Matrix::to_file_string and Matrix::from_file for an
  integer matrix: a header line `matrix integer R C`, then one line `r c v`
  per stored element.  Reading skips blank lines and lines whose first word
  starts with '#', checks every token, writes each element through
  operator[] and, when the threshold counts as zero, touches every
  position so that the result stores all of them.

  The file is given as the sequence of lines std::getline would return.
 */
module FileFormat {
  import opened Wrappers
  import opened Machine
  import opened Text
  import opened Sparse
  import opened CellMoves
  import opened Matrices

  /** file_invalid_error, told apart by its message. */
  datatype FileError =
    | MissingHeader               // the stream ends before a header line
    | HeaderBroken                // "file header broken"
    | NoMatrix                    // "no matrix in file"
    | InvalidType                 // "invalid type": a rational or float file
    | UnknownType                 // "unknown type"
    | InvalidSize                 // "invalid matrix size"
    | InvalidLine(line: string)   // "invalid line: "
    | InvalidIndexLine(line: string)
    | InvalidRowIndex(line: string)
    | InvalidColIndex(line: string)
    | InvalidInteger(line: string)

  // ---------------------------------------------------------------- writing

  /** Words joined by single spaces. */
  function Spaced(a: string, rest: string): string {
    a + (" " + rest)
  }

  function HeaderLine(rows: nat, cols: nat): string {
    Spaced("matrix", Spaced("integer", Spaced(NatToString(rows), NatToString(cols))))
  }

  function EntryLine(x: Cell, v: int): string {
    Spaced(NatToString(x.0), Spaced(NatToString(x.1), IntToString(v)))
  }

  /** One line per position of `cs`, in that order. */
  function EntryLines(s: Store, cs: seq<Cell>): (ls: seq<string>)
    requires forall k :: 0 <= k < |cs| ==> cs[k] in s
    ensures |ls| == |cs|
  {
    if |cs| == 0 then []
    else EntryLines(s, cs[..|cs| - 1]) + [EntryLine(cs[|cs| - 1], s[cs[|cs| - 1]])]
  }

  /** The lines of the text to_file_string writes: every stored element, ascending. */
  function FileLines(s: Store, rows: nat, cols: nat): seq<string> {
    [HeaderLine(rows, cols)] + EntryLines(s, Ordered(s.Keys))
  }

  function FileText(s: Store, rows: nat, cols: nat): string {
    JoinLines(FileLines(s, rows, cols))
  }

  lemma {:induction false} JoinLinesSnoc(ls: seq<string>, l: string)
    ensures JoinLines(ls + [l]) == JoinLines(ls) + l + "\n"
  {
    if ls != [] {
      assert (ls + [l])[1..] == ls[1..] + [l];
      JoinLinesSnoc(ls[1..], l);
    } else {
      assert [l][1..] == [];
    }
  }

  /** The body loop of to_file_string: appends one line per position of `cs`. */
  method WriteEntries(s: Store, cs: seq<Cell>, text0: string) returns (text: string)
    requires forall k :: 0 <= k < |cs| ==> cs[k] in s
    ensures text == text0 + JoinLines(EntryLines(s, cs))
  {
    text := text0;
    for i := 0 to |cs|
      invariant text == text0 + JoinLines(EntryLines(s, cs[..i]))
    {
      var x := cs[i];
      var line := NatToString(x.0) + (" " + (NatToString(x.1) + (" " + IntToString(s[x]))));
      EntryLinesSnoc(s, cs, i);
      AppendLine(text0, EntryLines(s, cs[..i]), line, text);
      text := text + (line + "\n");
    }
    assert cs[..|cs|] == cs;
  }

  lemma EntryLinesSnoc(s: Store, cs: seq<Cell>, i: nat)
    requires i < |cs| && forall k :: 0 <= k < |cs| ==> cs[k] in s
    ensures EntryLines(s, cs[..i + 1]) == EntryLines(s, cs[..i]) + [EntryLine(cs[i], s[cs[i]])]
  {
    assert cs[..i + 1][..i] == cs[..i];
  }

  lemma AppendLine(text0: string, before: seq<string>, line: string, text: string)
    requires text == text0 + JoinLines(before)
    ensures text + (line + "\n") == text0 + JoinLines(before + [line])
  {
    JoinLinesSnoc(before, line);
  }

  lemma JoinLinesCons(l: string, ls: seq<string>)
    ensures JoinLines([l] + ls) == l + "\n" + JoinLines(ls)
  {
    assert ([l] + ls)[1..] == ls;
  }

  /** to_file_string of an integer matrix: writes the stored elements without pruning. */
  method ToFileString(m: Matrix) returns (text: string)
    requires m.Valid()
    ensures text == FileText(m.store, m.rows, m.cols)
  {
    text := WriteFile(m.store, m.rows, m.cols);
  }

  /** The header, then the body loop over the stored elements. */
  method WriteFile(s: Store, rows: nat, cols: nat) returns (text: string)
    ensures text == FileText(s, rows, cols)
  {
    var header := "matrix" + (" " + ("integer" + (" " + (NatToString(rows) + (" " + NatToString(cols))))));
    header := header + "\n";
    var cs := Ordered(s.Keys);
    text := WriteEntries(s, cs, header);
    JoinLinesCons(HeaderLine(rows, cols), EntryLines(s, cs));
    assert FileLines(s, rows, cols) == [HeaderLine(rows, cols)] + EntryLines(s, cs);
  }

  // ---------------------------------------------------------------- reading

  /** A line the reader passes over: no words, or a first word starting with '#'. */
  predicate Skipped(ws: seq<string>) {
    ws == [] || (ws[0] != [] && ws[0][0] == '#')
  }

  /** The header line: the first line that is not passed over. */
  function HeaderAt(lines: seq<string>): (k: Option<nat>)
    ensures k.Some? ==> k.value < |lines| && !Skipped(Words(lines[k.value]))
    ensures k.Some? ==> forall j :: 0 <= j < k.value ==> Skipped(Words(lines[j]))
    ensures k.None? ==> forall j :: 0 <= j < |lines| ==> Skipped(Words(lines[j]))
  {
    if |lines| == 0 then None
    else if !Skipped(Words(lines[0])) then Some(0)
    else
      match HeaderAt(lines[1..])
      case None => None
      case Some(k) => Some(k + 1)
  }

  /** The header's checks, in the order from_file makes them. */
  function ParseHeader(ws: seq<string>): (r: Result<(nat, nat), FileError>)
    ensures r.Success? ==> r.value.0 < U32 && r.value.1 < U32
  {
    if |ws| < 4 then Failure(HeaderBroken)
    else if ws[0] != "matrix" then Failure(NoMatrix)
    else if ws[1] == "rational" || ws[1] == "float" then Failure(InvalidType)
    else if ws[1] != "integer" then Failure(UnknownType)
    else if Stoui(ws[2]).Failure? || Stoui(ws[3]).Failure? then Failure(InvalidSize)
    else Success((Stoui(ws[2]).value, Stoui(ws[3]).value))
  }

  /** The line index of the header and the size it declares. */
  function Header(lines: seq<string>): Result<(nat, nat, nat), FileError> {
    match HeaderAt(lines)
    case None => Failure(MissingHeader)
    case Some(k) =>
      match ParseHeader(Words(lines[k]))
      case Failure(e) => Failure(e)
      case Success(size) => Success((k, size.0, size.1))
  }

  /**
    One data line: passed over, an error, or the element it sets.  The
    indices go through an int, so the comparisons are those of the int
    values of the unsigned numbers read.
   */
  function ParseEntry(line: string, rows: nat, cols: nat): (r: Result<Option<Write>, FileError>)
    requires rows < U32 && cols < U32
    ensures r.Success? && r.value.Some? ==> InShape(r.value.value.0, rows, cols) && IsInt32(r.value.value.1)
  {
    var ws := Words(line);
    if Skipped(ws) then Success(None)
    else if |ws| < 3 then Failure(InvalidLine(line))
    else if Stoui(ws[0]).Failure? || Stoui(ws[1]).Failure? then Failure(InvalidIndexLine(line))
    else
      var r, c := AsInt32(Stoui(ws[0]).value), AsInt32(Stoui(ws[1]).value);
      if r < 1 || r > AsInt32(rows) then Failure(InvalidRowIndex(line))
      else if c < 1 || c > AsInt32(cols) then Failure(InvalidColIndex(line))
      else if Stoi(ws[2]).Failure? then Failure(InvalidInteger(line))
      else Success(Some(((r as nat, c as nat), Stoi(ws[2]).value)))
  }

  /** The elements the data lines set, in file order; the first bad line's error. */
  function Entries(lines: seq<string>, rows: nat, cols: nat): (r: Result<seq<Write>, FileError>)
    requires rows < U32 && cols < U32
    ensures r.Success? ==> forall k :: 0 <= k < |r.value| ==> InShape(r.value[k].0, rows, cols)
  {
    if |lines| == 0 then Success([])
    else
      match Entries(lines[..|lines| - 1], rows, cols)
      case Failure(e) => Failure(e)
      case Success(front) =>
        match ParseEntry(lines[|lines| - 1], rows, cols)
        case Failure(e) => Failure(e)
        case Success(None) => Success(front)
        case Success(Some(w)) => Success(front + [w])
  }

  /** Once a line is bad, the lines after it do not matter. */
  lemma {:induction false} EntriesAfterError(lines: seq<string>, j: nat, rows: nat, cols: nat)
    requires rows < U32 && cols < U32
    requires j <= |lines| && Entries(lines[..j], rows, cols).Failure?
    ensures Entries(lines, rows, cols) == Entries(lines[..j], rows, cols)
    decreases |lines| - j
  {
    if j < |lines| {
      assert lines[..j + 1][..j] == lines[..j];
      EntriesAfterError(lines, j + 1, rows, cols);
    } else {
      assert lines[..j] == lines;
    }
  }

  /** `m[x];` for every position of `cs`, in order. */
  function TouchAll(s: Store, cs: seq<Cell>, eps: real): Store {
    if |cs| == 0 then s else Touch(TouchAll(s, cs[..|cs| - 1], eps), cs[|cs| - 1], eps)
  }

  /** The store from_file builds from the elements read. */
  function ReadStore(ws: seq<Write>, rows: nat, cols: nat, eps: real): Store {
    var s := AssignAll(map[], ws, eps);
    if IsZero(eps) then TouchAll(s, RowMajor(rows, cols), eps) else s
  }

  datatype Loaded = Loaded(rows: nat, cols: nat, store: Store)

  /** from_file on the lines of a file: the matrix it returns, or the error it throws. */
  function ParseFile(lines: seq<string>, eps: real): (r: Result<Loaded, FileError>)
    ensures r.Success? ==> r.value.rows < U32 && r.value.cols < U32
  {
    match Header(lines)
    case Failure(e) => Failure(e)
    case Success(h) =>
      match Entries(lines[h.0 + 1..], h.1, h.2)
      case Failure(e) => Failure(e)
      case Success(ws) => Success(Loaded(h.1, h.2, ReadStore(ws, h.1, h.2, eps)))
  }

  // ----- the reading procedure -----

  /** from_file up to the header: the index of the header line and the declared size. */
  method ReadHeader(lines: seq<string>) returns (res: Result<(nat, nat, nat), FileError>)
    ensures res == Header(lines)
  {
    if |lines| == 0 {
      return Failure(MissingHeader);
    }
    var k := 0;
    var w := Split(lines[0]);
    WordsAreNonEmptyRuns(lines[0]);
    while w == [] || w[0][0] == '#'
      invariant k < |lines| && w == Words(lines[k])
      invariant forall n :: 0 <= n < |w| ==> w[n] != []
      invariant forall j :: 0 <= j < k ==> Skipped(Words(lines[j]))
      decreases |lines| - k
    {
      if k + 1 == |lines| {
        return Failure(MissingHeader);
      }
      k := k + 1;
      w := Split(lines[k]);
      WordsAreNonEmptyRuns(lines[k]);
    }
    assert HeaderAt(lines) == Some(k);
    if |w| < 4 {
      return Failure(HeaderBroken);
    }
    if w[0] != "matrix" {
      return Failure(NoMatrix);
    }
    if w[1] == "rational" {
      return Failure(InvalidType);
    } else if w[1] == "integer" {
    } else if w[1] == "float" {
      return Failure(InvalidType);
    } else {
      return Failure(UnknownType);
    }
    var rows, cols := Stoui(w[2]), Stoui(w[3]);
    if rows.Failure? || cols.Failure? {
      return Failure(InvalidSize);
    }
    return Success((k, rows.value, cols.value));
  }

  /** The checks from_file makes on one data line, in its order. */
  method ReadLine(line: string, rows: nat, cols: nat) returns (r: Result<Option<Write>, FileError>)
    requires rows < U32 && cols < U32
    ensures r == ParseEntry(line, rows, cols)
  {
    var rowsNum, colsNum := AsInt32(rows), AsInt32(cols);
    var w := Split(line);
    WordsAreNonEmptyRuns(line);
    if w == [] || w[0][0] == '#' {
      return Success(None);
    }
    if |w| < 3 {
      return Failure(InvalidLine(line));
    }
    var rowRead, colRead := Stoui(w[0]), Stoui(w[1]);
    if rowRead.Failure? || colRead.Failure? {
      return Failure(InvalidIndexLine(line));
    }
    var rowNum, colNum := AsInt32(rowRead.value), AsInt32(colRead.value);
    if rowNum < 1 || rowNum > rowsNum {
      return Failure(InvalidRowIndex(line));
    }
    if colNum < 1 || colNum > colsNum {
      return Failure(InvalidColIndex(line));
    }
    var v := Stoi(w[2]);
    if v.Failure? {
      return Failure(InvalidInteger(line));
    }
    return Success(Some(((rowNum, colNum), v.value)));
  }

  /** One more data line: its element appended to those read, or its error. */
  lemma EntriesNext(lines: seq<string>, i: nat, rows: nat, cols: nat)
    requires rows < U32 && cols < U32 && i < |lines|
    requires Entries(lines[..i], rows, cols).Success?
    ensures Entries(lines[..i + 1], rows, cols) ==
      match ParseEntry(lines[i], rows, cols)
      case Failure(e) => Failure(e)
      case Success(None) => Entries(lines[..i], rows, cols)
      case Success(Some(w)) => Success(Entries(lines[..i], rows, cols).value + [w])
  {
    assert lines[..i + 1][..i] == lines[..i];
    assert lines[..i + 1][i] == lines[i];
  }

  /** The data loop of from_file: each line checked, then written through operator[]. */
  method ReadEntries(m: Matrix, lines: seq<string>) returns (res: Result<(), FileError>)
    requires m.Valid() && m.store == map[]
    modifies m
    ensures m.Valid() && m.cols == old(m.cols) && m.proxies == old(m.proxies)
    ensures Entries(lines, m.rows, m.cols).Failure? ==> res == Failure(Entries(lines, m.rows, m.cols).error)
    ensures Entries(lines, m.rows, m.cols).Success? ==>
      res.Success? && m.store == AssignAll(map[], Entries(lines, m.rows, m.cols).value, m.eps)
  {
    var rows, cols, eps := m.rows, m.cols, m.eps;
    ghost var ws: seq<Write> := [];
    var i := 0;
    while i < |lines|
      invariant i <= |lines|
      invariant m.Valid() && m.cols == cols && m.proxies == old(m.proxies)
      invariant Entries(lines[..i], rows, cols) == Success(ws)
      invariant m.store == AssignAll(map[], ws, eps)
    {
      var e := ReadLine(lines[i], rows, cols);
      EntriesNext(lines, i, rows, cols);
      if e.Failure? {
        EntriesAfterError(lines, i + 1, rows, cols);
        return Failure(e.error);
      }
      if e.value.Some? {
        var x := e.value.value;
        var written := m.Assign(x.0.0, x.0.1, x.1);
        if written.Failure? {
          assert false;
        }
        ws := ws + [x];
      }
      i := i + 1;
    }
    assert lines[..i] == lines;
    return Success(());
  }

  /** TouchAll one step further. */
  lemma TouchAllSnoc(s: Store, cs: seq<Cell>, x: Cell, eps: real)
    ensures TouchAll(s, cs + [x], eps) == Touch(TouchAll(s, cs, eps), x, eps)
  {
    assert (cs + [x])[..|cs|] == cs;
  }

  /** The closing loops of from_file when the threshold counts as zero: `res[{i, j}];` everywhere. */
  method TouchGrid(m: Matrix)
    requires m.Valid()
    modifies m
    ensures m.Valid() && m.cols == old(m.cols) && m.proxies == old(m.proxies)
    ensures m.store == TouchAll(old(m.store), RowMajor(m.rows, m.cols), m.eps)
  {
    var rows, cols := m.rows, m.cols;
    ghost var s0 := m.store;
    var i := 1;
    while i <= rows
      invariant 1 <= i <= rows + 1
      invariant m.Valid() && m.cols == cols && m.proxies == old(m.proxies)
      invariant m.store == TouchAll(s0, RowMajor(i - 1, cols), m.eps)
    {
      TouchRow(m, i, s0, RowMajor(i - 1, cols));
      i := i + 1;
    }
  }

  /** The inner loop: `res[{i, j}];` for j from 1 to the column count. */
  method TouchRow(m: Matrix, i: nat, ghost s0: Store, ghost done: seq<Cell>)
    requires m.Valid() && 1 <= i <= m.rows
    requires m.store == TouchAll(s0, done, m.eps)
    modifies m
    ensures m.Valid() && m.cols == old(m.cols) && m.proxies == old(m.proxies)
    ensures m.store == TouchAll(s0, done + RowCells(i, m.cols), m.eps)
  {
    var cols := m.cols;
    var j := 1;
    assert done + RowCells(i, 0) == done;
    while j <= cols
      invariant 1 <= j <= cols + 1
      invariant m.Valid() && m.cols == cols && m.proxies == old(m.proxies)
      invariant m.store == TouchAll(s0, done + RowCells(i, j - 1), m.eps)
    {
      ghost var before := m.store;
      var t := m.Touch(i, j);
      if t.Failure? {
        assert false;
      }
      TouchStep(s0, done, i, j, m.eps, before, m.store);
      j := j + 1;
    }
  }

  lemma TouchStep(s0: Store, done: seq<Cell>, i: nat, j: nat, eps: real, before: Store, after: Store)
    requires j >= 1 && before == TouchAll(s0, done + RowCells(i, j - 1), eps)
    requires after == Touch(before, (i, j), eps)
    ensures after == TouchAll(s0, done + RowCells(i, j), eps)
  {
    TouchAllSnoc(s0, done + RowCells(i, j - 1), (i, j), eps);
    assert done + RowCells(i, j) == done + RowCells(i, j - 1) + [(i, j)];
  }

  /**
    from_file: the header, a new rows x cols matrix, the data lines, and,
    when the threshold counts as zero, a stored element at every position.
   */
  method FromFile(lines: seq<string>, eps: real) returns (res: Result<Matrix, FileError>)
    ensures ParseFile(lines, eps).Failure? ==> res == Failure(ParseFile(lines, eps).error)
    ensures ParseFile(lines, eps).Success? ==>
      res.Success? && fresh(res.value) && res.value.Valid() && res.value.Registered() &&
      res.value.rows == ParseFile(lines, eps).value.rows && res.value.cols == ParseFile(lines, eps).value.cols &&
      res.value.store == ParseFile(lines, eps).value.store && res.value.eps == eps && res.value.proxies == {}
  {
    var h := ReadHeader(lines);
    if h.Failure? {
      return Failure(h.error);
    }
    var k, rows, cols := h.value.0, h.value.1, h.value.2;
    var m := new Matrix(rows, cols, eps);
    var e := ReadEntries(m, lines[k + 1..]);
    if e.Failure? {
      return Failure(e.error);
    }
    if IsZero(eps) {
      TouchGrid(m);
    }
    return Success(m);
  }

  // ---------------------------------------------------------------- properties

  /** `m[x];` changes no read: it prunes, then at most stores a 0. */
  lemma TouchReads(t: Store, x: Cell, eps: real)
    ensures forall y :: Get(Prune(Touch(t, x, eps), eps), y) == Get(Prune(t, eps), y)
  {
    PruneTwice(t, eps);
  }

  lemma {:induction false} TouchAllReads(s: Store, cs: seq<Cell>, eps: real)
    ensures forall y :: Get(Prune(TouchAll(s, cs, eps), eps), y) == Get(Prune(s, eps), y)
  {
    if |cs| > 0 {
      TouchAllReads(s, cs[..|cs| - 1], eps);
      TouchReads(TouchAll(s, cs[..|cs| - 1], eps), cs[|cs| - 1], eps);
    }
  }

  /**
    The touched positions are the only ones added; with a threshold that is
    not positive nothing is pruned, so each of them ends up stored.
   */
  lemma {:induction false} TouchAllKeys(s: Store, cs: seq<Cell>, eps: real)
    ensures TouchAll(s, cs, eps).Keys <= s.Keys + Elems(cs)
    ensures eps <= 0.0 ==> TouchAll(s, cs, eps).Keys == s.Keys + Elems(cs)
  {
    if |cs| > 0 {
      var front := cs[..|cs| - 1];
      TouchAllKeys(s, front, eps);
      ElemsSnoc(cs);
      if eps <= 0.0 {
        NonPositiveThreshold(TouchAll(s, front, eps), eps);
      }
    }
  }

  /** The writes of from_file land only on the targets, all inside the declared shape. */
  lemma AssignAllKeys(ws: seq<Write>, eps: real)
    ensures AssignAll(map[], ws, eps).Keys <= Targets(ws)
  {
    if |ws| > 0 {
      AssignAllLazy(ws, eps);
      OverlayKeys(map[], ws);
    }
  }

  /**
    What from_file returns is a valid matrix of the declared shape; with a
    threshold that counts as zero and is not positive it stores every
    position, as the closing loops intend.
   */
  lemma LoadedInRange(lines: seq<string>, eps: real)
    requires ParseFile(lines, eps).Success?
    ensures InRange(ParseFile(lines, eps).value.store, ParseFile(lines, eps).value.rows, ParseFile(lines, eps).value.cols)
    ensures IsZero(eps) && eps <= 0.0 ==>
      forall x :: InShape(x, ParseFile(lines, eps).value.rows, ParseFile(lines, eps).value.cols) ==>
        x in ParseFile(lines, eps).value.store
  {
    var h := Header(lines).value;
    var ws := Entries(lines[h.0 + 1..], h.1, h.2).value;
    var a := AssignAll(map[], ws, eps);
    AssignAllKeys(ws, eps);
    TargetsMembers(ws);
    assert InRange(a, h.1, h.2);
    if IsZero(eps) {
      TouchAllKeys(a, RowMajor(h.1, h.2), eps);
      RowMajorElems(h.1, h.2);
    }
  }

  // ----- the closing loops with a small positive threshold -----

  /** With a positive threshold a touch prunes first, so the 0 an earlier touch stored is gone again. */
  lemma PruneTouch(t: Store, x: Cell, eps: real)
    requires eps > 0.0
    ensures Prune(Touch(t, x, eps), eps) == Prune(t, eps)
  {
    PruneTwice(t, eps);
  }

  /**
    The closing loops as written with a positive threshold: each `m[x];`
    erases the 0 the one before stored, so of all the positions touched
    only the last one is added.
   */
  lemma {:induction false} TouchAllPositive(s: Store, cs: seq<Cell>, eps: real)
    requires eps > 0.0 && |cs| > 0
    ensures TouchAll(s, cs, eps) == Touch(Prune(s, eps), cs[|cs| - 1], eps)
  {
    var front := cs[..|cs| - 1];
    PruneTwice(s, eps);
    if |front| > 0 {
      TouchAllPositive(s, front, eps);
      PruneTouch(Prune(s, eps), front[|front| - 1], eps);
    }
  }

  /**
    from_file's store as written when 0 < eps < 1e-10: is_zero(eps) holds,
    yet the elements read are pruned and only position (rows, cols) gains a 0.
   */
  lemma TinyThresholdStore(ws: seq<Write>, rows: nat, cols: nat, eps: real)
    requires IsZero(eps) && eps > 0.0 && rows >= 1 && cols >= 1
    ensures ReadStore(ws, rows, cols, eps) == Touch(Prune(AssignAll(map[], ws, eps), eps), (rows, cols), eps)
  {
    var cs := RowMajor(rows, cols);
    assert RowCells(rows, cols) == RowCells(rows, cols - 1) + [(rows, cols)];
    assert cs == RowMajor(rows - 1, cols) + RowCells(rows, cols);
    assert cs[|cs| - 1] == (rows, cols);
    TouchAllPositive(AssignAll(map[], ws, eps), cs, eps);
  }

  /** A 1 x 2 file with no elements, loaded with eps = 1e-11, stores position (1, 2) but not (1, 1). */
  lemma TinyThresholdFinding()
    ensures ParseFile([HeaderLine(1, 2)], 0.00000000001) == Success(Loaded(1, 2, map[(1, 2) := 0]))
  {
    var eps := 0.00000000001;
    HeaderOfHeaderLine(1, 2);
    var ws := Words(HeaderLine(1, 2));
    assert ws[0] == "matrix";
    assert !Skipped(ws);
    assert Header([HeaderLine(1, 2)]) == Success((0, 1, 2));
    assert [HeaderLine(1, 2)][1..] == [];
    TinyThresholdStore([], 1, 2, eps);
    assert Prune(map[], eps) == map[];
  }

  /** `s` with a 0 added at every position of `cells` it does not store. */
  function Padded(s: Store, cells: set<Cell>): (r: Store)
    ensures r.Keys == s.Keys + cells
    ensures forall x :: Get(r, x) == Get(s, x)
  {
    map x | x in s.Keys + cells :: Get(s, x)
  }

  /**
    The store from_file is meant to build: when is_zero(eps), the closing
    loops leave a stored element at every position of the matrix.
   */
  function ReadStoreFull(ws: seq<Write>, rows: nat, cols: nat, eps: real): Store {
    var s := AssignAll(map[], ws, eps);
    if IsZero(eps) then Padded(s, Elems(RowMajor(rows, cols))) else s
  }

  /** With a threshold that is not positive a touch only adds a 0, and the touches pad the store. */
  lemma {:induction false} TouchAllPads(s: Store, cs: seq<Cell>, eps: real)
    requires eps <= 0.0
    ensures TouchAll(s, cs, eps) == Padded(s, Elems(cs))
  {
    if |cs| > 0 {
      var front := cs[..|cs| - 1];
      TouchAllPads(s, front, eps);
      ElemsSnoc(cs);
      NonPositiveThreshold(Padded(s, Elems(front)), eps);
    }
  }

  /**
    The intended store holds every position when is_zero(eps), reads like
    the store as written, and is the store as written whenever eps <= 0;
    it differs only for 0 < eps < 1e-10.
   */
  lemma ReadStoreFullAgrees(ws: seq<Write>, rows: nat, cols: nat, eps: real)
    ensures IsZero(eps) ==> forall x :: InShape(x, rows, cols) ==> x in ReadStoreFull(ws, rows, cols, eps)
    ensures forall x ::
      Get(Prune(ReadStoreFull(ws, rows, cols, eps), eps), x) == Get(Prune(ReadStore(ws, rows, cols, eps), eps), x)
    ensures eps <= 0.0 ==> ReadStoreFull(ws, rows, cols, eps) == ReadStore(ws, rows, cols, eps)
  {
    var s := AssignAll(map[], ws, eps);
    RowMajorElems(rows, cols);
    if IsZero(eps) {
      var f := Padded(s, Elems(RowMajor(rows, cols)));
      TouchAllReads(s, RowMajor(rows, cols), eps);
      forall x ensures Get(Prune(f, eps), x) == Get(Prune(s, eps), x) {
        assert Get(f, x) == Get(s, x);
      }
      if eps <= 0.0 {
        TouchAllPads(s, RowMajor(rows, cols), eps);
      }
    }
  }

  // ----- the round trip to_file_string -> from_file -----

  lemma NoNewlineJoin(a: string, b: string)
    requires NoNewline(a) && NoNewline(b)
    ensures NoNewline(a + b)
  {
    forall i | 0 <= i < |a + b| ensures (a + b)[i] != '\n' {
      if i < |a| {
        assert (a + b)[i] == a[i];
      } else {
        assert (a + b)[i] == b[i - |a|];
      }
    }
  }

  /** A word followed by a space and more text is the first word read. */
  lemma WordsSpaced(a: string, rest: string)
    requires a != [] && NoSpace(a)
    ensures Words(Spaced(a, rest)) == [a] + Words(rest)
  {
    assert Spaced(a, rest) == a + [' '] + rest;
    WordsCons(a, ' ', rest);
  }

  lemma SpacedNoNewline(a: string, rest: string)
    requires NoNewline(a) && NoNewline(rest)
    ensures NoNewline(Spaced(a, rest))
  {
    NoNewlineJoin(" ", rest);
    NoNewlineJoin(a, " " + rest);
  }

  lemma NumberShape(n: nat)
    ensures NatToString(n) != [] && NoSpace(NatToString(n)) && NoNewline(NatToString(n))
    ensures NatToString(n)[0] != '#'
  {
  }

  lemma HeaderLineShape(rows: nat, cols: nat)
    ensures NoNewline(HeaderLine(rows, cols))
    ensures Words(HeaderLine(rows, cols)) == ["matrix", "integer", NatToString(rows), NatToString(cols)]
  {
    var r, c := NatToString(rows), NatToString(cols);
    NumberShape(rows);
    NumberShape(cols);
    WordsSingle(c);
    WordsSpaced(r, c);
    WordsSpaced("integer", Spaced(r, c));
    WordsSpaced("matrix", Spaced("integer", Spaced(r, c)));
    SpacedNoNewline(r, c);
    SpacedNoNewline("integer", Spaced(r, c));
    SpacedNoNewline("matrix", Spaced("integer", Spaced(r, c)));
  }

  lemma EntryLineShape(x: Cell, v: int)
    ensures NoNewline(EntryLine(x, v))
    ensures Words(EntryLine(x, v)) == [NatToString(x.0), NatToString(x.1), IntToString(v)]
  {
    var r, c, t := NatToString(x.0), NatToString(x.1), IntToString(v);
    NumberShape(x.0);
    NumberShape(x.1);
    IntToStringShape(v);
    WordsSingle(t);
    WordsSpaced(c, t);
    WordsSpaced(r, Spaced(c, t));
    SpacedNoNewline(c, t);
    SpacedNoNewline(r, Spaced(c, t));
  }

  /** A written header declares the size it was written from. */
  lemma HeaderOfHeaderLine(rows: nat, cols: nat)
    requires rows < U32 && cols < U32
    ensures ParseHeader(Words(HeaderLine(rows, cols))) == Success((rows, cols))
  {
    HeaderLineShape(rows, cols);
    StouiOfNat(rows);
    StouiOfNat(cols);
  }

  /** A written element line sets the element it was written from. */
  lemma EntryOfEntryLine(x: Cell, v: int, rows: nat, cols: nat)
    requires rows <= INT_MAX && cols <= INT_MAX && InShape(x, rows, cols) && IsInt32(v)
    ensures ParseEntry(EntryLine(x, v), rows, cols) == Success(Some((x, v)))
  {
    EntryLineShape(x, v);
    NumberShape(x.0);
    StouiOfNat(x.0);
    StouiOfNat(x.1);
    ParseIntToString(v);
  }

  lemma {:induction false} EntriesOfEntryLines(s: Store, cs: seq<Cell>, rows: nat, cols: nat)
    requires rows <= INT_MAX && cols <= INT_MAX
    requires forall k :: 0 <= k < |cs| ==> cs[k] in s && InShape(cs[k], rows, cols) && IsInt32(s[cs[k]])
    ensures Entries(EntryLines(s, cs), rows, cols) == Success(Moves(Identity, s, cs))
  {
    if |cs| > 0 {
      var n := |cs|;
      var front := cs[..n - 1];
      EntriesOfEntryLines(s, front, rows, cols);
      var ls := EntryLines(s, cs);
      assert ls[..n - 1] == EntryLines(s, front);
      EntryOfEntryLine(cs[n - 1], s[cs[n - 1]], rows, cols);
    }
  }

  /** The writes of the reloaded element lines, as plain map updates, rebuild `s`. */
  lemma ReloadedOverlay(s: Store)
    ensures Overlay(map[], Moves(Identity, s, Ordered(s.Keys))) == s
  {
    var cs := Ordered(s.Keys);
    var ws := Moves(Identity, s, cs);
    OrderedElems(s.Keys);
    CopyTargets(s, cs);
    OverlaySource(Identity, s, ws);
  }

  /** Writing every stored element of `s` into an empty matrix through operator[]: the same reads. */
  lemma ReloadedReads(s: Store, eps: real)
    ensures Prune(AssignAll(map[], Moves(Identity, s, Ordered(s.Keys)), eps), eps) == Prune(s, eps)
  {
    PrunedAssignAll(Moves(Identity, s, Ordered(s.Keys)), eps);
    ReloadedOverlay(s);
  }

  /** ... and the same elements when none of them is small. */
  lemma ReloadedExact(s: Store, eps: real)
    requires Prune(s, eps) == s
    ensures AssignAll(map[], Moves(Identity, s, Ordered(s.Keys)), eps) == s
  {
    var cs := Ordered(s.Keys);
    var ws := Moves(Identity, s, cs);
    CopyMoves(s, cs);
    if |ws| > 0 {
      AssignAllLazy(ws, eps);
      ReloadedOverlay(s);
      LazyWhole(s, ws[|ws| - 1].0, eps);
    } else {
      assert |s| == 0;
      assert s == map[];
    }
  }

  lemma LazyWhole(w: Store, last: Cell, eps: real)
    requires last in w && Prune(w, eps) == w
    ensures Lazy(w, last, eps) == w
  {
    assert forall x :: x in w ==> !Small(w[x], eps);
    PruneNone(w - {last}, eps);
  }

  lemma IdentityStore(s: Store)
    ensures MovedStore(Identity, s, s.Keys) == s
  {
    forall k | k in s ensures k in Image(Identity, s, s.Keys) {
      assert Moved(Identity, s, k).value.0 == k;
    }
  }

  lemma {:induction false} EntryLinesAt(s: Store, cs: seq<Cell>)
    requires forall k :: 0 <= k < |cs| ==> cs[k] in s
    ensures forall k :: 0 <= k < |cs| ==> EntryLines(s, cs)[k] == EntryLine(cs[k], s[cs[k]])
  {
    if |cs| > 0 {
      var front := cs[..|cs| - 1];
      EntryLinesAt(s, front);
      forall k | 0 <= k < |cs| - 1 ensures EntryLines(s, cs)[k] == EntryLine(cs[k], s[cs[k]]) {
        assert EntryLines(s, cs)[k] == EntryLines(s, front)[k];
        assert front[k] == cs[k];
      }
    }
  }

  /** The lines of a file holding the elements at `cs`: no line breaks inside them, the header first. */
  lemma LinesShape(s: Store, cs: seq<Cell>, rows: nat, cols: nat)
    requires forall k :: 0 <= k < |cs| ==> cs[k] in s
    ensures forall k :: 0 <= k < |cs| + 1 ==> NoNewline(([HeaderLine(rows, cols)] + EntryLines(s, cs))[k])
    ensures HeaderAt([HeaderLine(rows, cols)] + EntryLines(s, cs)) == Some(0)
  {
    var ls := [HeaderLine(rows, cols)] + EntryLines(s, cs);
    HeaderLineShape(rows, cols);
    EntryLinesAt(s, cs);
    forall k | 1 <= k < |ls| ensures NoNewline(ls[k]) {
      assert ls[k] == EntryLines(s, cs)[k - 1];
      EntryLineShape(cs[k - 1], s[cs[k - 1]]);
    }
  }

  /** The lines of such a file parse as its size and the elements at `cs`, in that order. */
  lemma ParseLines(s: Store, cs: seq<Cell>, rows: nat, cols: nat, eps: real)
    requires rows <= INT_MAX && cols <= INT_MAX
    requires forall k :: 0 <= k < |cs| ==> cs[k] in s && InShape(cs[k], rows, cols) && IsInt32(s[cs[k]])
    ensures ParseFile([HeaderLine(rows, cols)] + EntryLines(s, cs), eps)
      == Success(Loaded(rows, cols, ReadStore(Moves(Identity, s, cs), rows, cols, eps)))
  {
    var ls := [HeaderLine(rows, cols)] + EntryLines(s, cs);
    LinesShape(s, cs, rows, cols);
    HeaderOfHeaderLine(rows, cols);
    assert ls[0] == HeaderLine(rows, cols);
    assert Header(ls) == Success((0, rows, cols));
    assert ls[1..] == EntryLines(s, cs);
    EntriesOfEntryLines(s, cs, rows, cols);
  }

  /** The file to_file_string writes, as the lines std::getline reads back, parses as its elements. */
  lemma ParseFileText(s: Store, rows: nat, cols: nat, eps: real)
    requires rows <= INT_MAX && cols <= INT_MAX && InRange(s, rows, cols)
    requires forall x :: x in s ==> IsInt32(s[x])
    ensures ParseFile(Lines(FileText(s, rows, cols)), eps)
      == Success(Loaded(rows, cols, ReadStore(Moves(Identity, s, Ordered(s.Keys)), rows, cols, eps)))
  {
    var cs := Ordered(s.Keys);
    assert forall k :: 0 <= k < |cs| ==> cs[k] in s;
    var ls := [HeaderLine(rows, cols)] + EntryLines(s, cs);
    assert FileText(s, rows, cols) == JoinLines(ls);
    LinesShape(s, cs, rows, cols);
    LinesOfJoin(ls);
    ParseLines(s, cs, rows, cols, eps);
  }

  /**
    from_file reads back what to_file_string wrote: the same size, and every
    read of the reloaded matrix sees what a read of the original saw; with a
    threshold that does not count as zero and nothing small stored, the very
    same elements.
   */
  lemma RoundTrip(s: Store, rows: nat, cols: nat, eps: real)
    requires rows <= INT_MAX && cols <= INT_MAX && InRange(s, rows, cols)
    requires forall x :: x in s ==> IsInt32(s[x])
    ensures ParseFile(Lines(FileText(s, rows, cols)), eps).Success?
    ensures ParseFile(Lines(FileText(s, rows, cols)), eps).value.rows == rows
    ensures ParseFile(Lines(FileText(s, rows, cols)), eps).value.cols == cols
    ensures forall x :: Get(Prune(ParseFile(Lines(FileText(s, rows, cols)), eps).value.store, eps), x) == Get(Prune(s, eps), x)
    ensures !IsZero(eps) && Prune(s, eps) == s ==> ParseFile(Lines(FileText(s, rows, cols)), eps).value.store == s
  {
    ParseFileText(s, rows, cols, eps);
    var a := AssignAll(map[], Moves(Identity, s, Ordered(s.Keys)), eps);
    ReloadedReads(s, eps);
    if IsZero(eps) {
      TouchAllReads(a, RowMajor(rows, cols), eps);
    } else if Prune(s, eps) == s {
      ReloadedExact(s, eps);
    }
  }
}
