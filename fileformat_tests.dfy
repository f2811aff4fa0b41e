/**
  The file-format cases of Matrix::test(): to_file_string of make_ones(2, 1),
  and from_file on an integer sample and on files it rejects.
 */
module FileFormatTests {
  import opened Wrappers
  import opened Machine
  import opened Text
  import opened Sparse
  import opened Factories
  import opened FileFormat

  /** The to_file_string test: make_ones(2, 1, 0.5) is written as its header and two lines. */
  lemma ToFileStringTest()
    ensures FileText(FactoryStore(Ones, 2, 1, 0.5), 2, 1) == "matrix integer 2 1\n1 1 1\n2 1 1\n"
  {
    var s: Store := map[(1, 1) := 1, (2, 1) := 1];
    OnesTest();
    OrderedOf(s.Keys, [(1, 1), (2, 1)]);
    OnesLines(s);
    JoinLinesCons(HeaderLine(2, 1), [EntryLine((1, 1), 1), EntryLine((2, 1), 1)]);
    JoinLinesCons(EntryLine((1, 1), 1), [EntryLine((2, 1), 1)]);
    JoinLinesCons(EntryLine((2, 1), 1), []);
    Digits();
    ExpectedText();
  }

  lemma OnesLines(s: Store)
    requires s == map[(1, 1) := 1, (2, 1) := 1]
    ensures EntryLines(s, [(1, 1), (2, 1)]) == [EntryLine((1, 1), 1), EntryLine((2, 1), 1)]
  {
    assert [(1, 1), (2, 1)][..1] == [(1, 1)];
    assert [(1, 1)][..0] == [];
  }

  lemma Digits()
    ensures NatToString(1) == "1" && NatToString(2) == "2" && IntToString(1) == "1"
  {
  }

  lemma ExpectedText()
    ensures Spaced("matrix", Spaced("integer", Spaced("2", "1"))) + "\n" +
      (Spaced("1", Spaced("1", "1")) + "\n" + (Spaced("2", Spaced("1", "1")) + "\n" + JoinLines([])))
      == "matrix integer 2 1\n1 1 1\n2 1 1\n"
  {
  }

  /**
    An integer sample: the comment `# sample`, the header `matrix integer 3 2`,
    a blank line, and the element lines `1 2 5` and `3 1 -7`.
   */
  function Sample(): seq<string> {
    [Spaced("#", "sample"), HeaderLine(3, 2), "", EntryLine((1, 2), 5), EntryLine((3, 1), -7)]
  }

  lemma CommentSkipped(rest: string)
    ensures Skipped(Words(Spaced("#", rest)))
  {
    WordsSpaced("#", rest);
  }

  lemma SampleHeader()
    ensures Header(Sample()) == Success((1, 3, 2))
  {
    var ls := Sample();
    CommentSkipped("sample");
    HeaderLineShape(3, 2);
    HeaderOfHeaderLine(3, 2);
    assert HeaderAt(ls[1..]) == Some(0);
  }

  lemma SampleEntries()
    ensures Entries(Sample()[2..], 3, 2) == Success([((1, 2), 5), ((3, 1), -7)])
  {
    var l1, l2 := EntryLine((1, 2), 5), EntryLine((3, 1), -7);
    var w1, w2 := ((1, 2), 5), ((3, 1), -7);
    EntryOfEntryLine((1, 2), 5, 3, 2);
    EntryOfEntryLine((3, 1), -7, 3, 2);
    BlankEntry(3, 2);
    EntriesOfThree("", l1, l2, w1, w2, 3, 2);
    assert Sample()[2..] == ["", l1, l2];
  }

  lemma BlankEntry(rows: nat, cols: nat)
    requires rows < U32 && cols < U32
    ensures ParseEntry("", rows, cols) == Success(None)
  {
    assert Words("") == [];
  }

  /** Three lines: a passed-over line and two elements. */
  lemma EntriesOfThree(l0: string, l1: string, l2: string, w1: Write, w2: Write, rows: nat, cols: nat)
    requires rows < U32 && cols < U32
    requires ParseEntry(l0, rows, cols) == Success(None)
    requires ParseEntry(l1, rows, cols) == Success(Some(w1))
    requires ParseEntry(l2, rows, cols) == Success(Some(w2))
    ensures Entries([l0, l1, l2], rows, cols) == Success([w1, w2])
  {
    var ls := [l0, l1, l2];
    assert ls[..0] == [];
    assert Entries(ls[..0], rows, cols) == Success([]);
    EntriesNext(ls, 0, rows, cols);
    assert Entries(ls[..1], rows, cols) == Success([]);
    EntriesNext(ls, 1, rows, cols);
    assert Entries(ls[..2], rows, cols) == Success([] + [w1]);
    EntriesNext(ls, 2, rows, cols);
    assert Entries(ls[..3], rows, cols) == Success([] + [w1] + [w2]);
    assert [] + [w1] + [w2] == [w1, w2];
    assert ls[..3] == ls;
  }

  /** The sample read with threshold 0.5: the two elements, nothing else. */
  lemma FromFileTest()
    ensures ParseFile(Sample(), 0.5) == Success(Loaded(3, 2, map[(1, 2) := 5, (3, 1) := -7]))
  {
    SampleHeader();
    SampleEntries();
    SampleStore();
  }

  lemma SampleStore()
    ensures AssignAll(map[], [((1, 2), 5), ((3, 1), -7)], 0.5) == map[(1, 2) := 5, (3, 1) := -7]
  {
    assert [((1, 2), 5), ((3, 1), -7)][..1] == [((1, 2), 5)];
    assert [((1, 2), 5)][..0] == [];
    assert AssignAll(map[], [((1, 2), 5)], 0.5) == map[(1, 2) := 5];
  }

  /** A header `matrix float <rows> <cols>`. */
  function FloatHeaderLine(rows: nat, cols: nat): string {
    Spaced("matrix", Spaced("float", Spaced(NatToString(rows), NatToString(cols))))
  }

  /** A float header read as an integer matrix fails with "invalid type", whatever follows it. */
  lemma FloatFileRejected(rows: nat, cols: nat, more: seq<string>, eps: real)
    ensures ParseFile([FloatHeaderLine(rows, cols)] + more, eps) == Failure(InvalidType)
  {
    var r, c := NatToString(rows), NatToString(cols);
    PlainWords();
    NumberShape(rows);
    NumberShape(cols);
    WordsSingle(c);
    WordsSpaced(r, c);
    WordsSpaced("float", Spaced(r, c));
    WordsSpaced("matrix", Spaced("float", Spaced(r, c)));
    var ls := [FloatHeaderLine(rows, cols)] + more;
    assert ls[0] == FloatHeaderLine(rows, cols);
    assert HeaderAt(ls) == Some(0);
  }

  /** The literal words used above contain no white space. */
  lemma PlainWords()
    ensures "matrix" != [] && NoSpace("matrix") && "float" != [] && NoSpace("float")
  {
  }

  /** An element line whose row index is 0 or beyond the declared rows: "invalid row index". */
  lemma RowIndexRejected(rows: nat, cols: nat, x: Cell, v: int, eps: real)
    requires rows <= INT_MAX && cols <= INT_MAX && x.1 < U32
    requires x.0 == 0 || rows < x.0 <= INT_MAX
    ensures ParseFile([HeaderLine(rows, cols), EntryLine(x, v)], eps) == Failure(InvalidRowIndex(EntryLine(x, v)))
  {
    RowIndexEntry(rows, cols, x, v);
    HeaderOfHeaderLine(rows, cols);
    HeaderLineShape(rows, cols);
    NumberShape(rows);
    HeaderThenBadLine(HeaderLine(rows, cols), EntryLine(x, v), rows, cols, eps);
  }

  lemma RowIndexEntry(rows: nat, cols: nat, x: Cell, v: int)
    requires rows <= INT_MAX && cols <= INT_MAX && x.1 < U32
    requires x.0 == 0 || rows < x.0 <= INT_MAX
    ensures ParseEntry(EntryLine(x, v), rows, cols) == Failure(InvalidRowIndex(EntryLine(x, v)))
  {
    EntryLineShape(x, v);
    NumberShape(x.0);
    StouiOfNat(x.0);
    StouiOfNat(x.1);
  }

  /** A header line followed by one line that fails: the file fails with that line's error. */
  lemma HeaderThenBadLine(h: string, l: string, rows: nat, cols: nat, eps: real)
    requires rows < U32 && cols < U32
    requires !Skipped(Words(h)) && ParseHeader(Words(h)) == Success((rows, cols))
    requires ParseEntry(l, rows, cols).Failure?
    ensures ParseFile([h, l], eps) == Failure(ParseEntry(l, rows, cols).error)
  {
    var ls := [h, l];
    assert HeaderAt(ls) == Some(0);
    assert Header(ls) == Success((0, rows, cols));
    assert ls[1..] == [l] && [l][..0] == [];
    assert Entries([l][..0], rows, cols) == Success([]);
    assert Entries([l], rows, cols) == Failure(ParseEntry(l, rows, cols).error);
  }

  /** Only the comment `# nothing`: the header never comes. */
  lemma NoHeaderTest()
    ensures ParseFile([Spaced("#", "nothing")], 0.5) == Failure(MissingHeader)
  {
    CommentSkipped("nothing");
    assert HeaderAt([Spaced("#", "nothing")][1..]) == None;
  }
}
