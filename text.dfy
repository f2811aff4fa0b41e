/**
  Character-level helpers of the C++ code: std::isspace, the `split`
  tokenizer of matrix.h, std::to_string for integers, the line splitting of
  std::getline, and the number parsers std::stoll / std::stoi / std::stoul
  restricted to an optional '-' followed by decimal digits.
 */
module Text {
  import opened Wrappers
  import opened Machine

  /** std::isspace in the "C" locale. */
  predicate IsSpace(c: char) {
    c == ' ' || c == '\t' || c == '\n' || c == '\r' || c == '\U{0B}' || c == '\U{0C}'
  }

  predicate NoSpace(s: string) {
    forall i :: 0 <= i < |s| ==> !IsSpace(s[i])
  }

  /** The longest prefix of `s` without white space. */
  function LeadingWord(s: string): (w: string)
    ensures |w| <= |s| && w == s[..|w|]
    ensures NoSpace(w)
    ensures |w| < |s| ==> IsSpace(s[|w|])
  {
    if s == [] || IsSpace(s[0]) then [] else [s[0]] + LeadingWord(s[1..])
  }

  /** The maximal runs of non-white-space characters of `s`, in order. */
  function Words(s: string): (ws: seq<string>)
    decreases |s|
  {
    if s == [] then []
    else if IsSpace(s[0]) then Words(s[1..])
    else
      var w := LeadingWord(s);
      [w] + Words(s[|w|..])
  }

  lemma {:induction false} WordsAreNonEmptyRuns(s: string)
    ensures forall k :: 0 <= k < |Words(s)| ==> Words(s)[k] != [] && NoSpace(Words(s)[k])
    decreases |s|
  {
    if s == [] {
    } else if IsSpace(s[0]) {
      WordsAreNonEmptyRuns(s[1..]);
    } else {
      var w := LeadingWord(s);
      WordsAreNonEmptyRuns(s[|w|..]);
    }
  }

  lemma {:induction false} LeadingWordBeforeSpace(w: string, c: char, rest: string)
    requires NoSpace(w) && IsSpace(c)
    ensures LeadingWord(w + [c] + rest) == w
  {
    if w != [] {
      assert (w + [c] + rest)[1..] == w[1..] + [c] + rest;
      LeadingWordBeforeSpace(w[1..], c, rest);
    }
  }

  lemma {:induction false} LeadingWordWhole(w: string)
    requires NoSpace(w)
    ensures LeadingWord(w) == w
  {
    if w != [] {
      LeadingWordWhole(w[1..]);
    }
  }

  /** A space-free word followed by white space is the first word. */
  lemma WordsCons(w: string, c: char, rest: string)
    requires w != [] && NoSpace(w) && IsSpace(c)
    ensures Words(w + [c] + rest) == [w] + Words(rest)
  {
    LeadingWordBeforeSpace(w, c, rest);
    var s := w + [c] + rest;
    assert s[|w|..] == [c] + rest;
    assert ([c] + rest)[1..] == rest;
  }

  lemma WordsSingle(w: string)
    requires w != [] && NoSpace(w)
    ensures Words(w) == [w]
  {
    LeadingWordWhole(w);
    assert w[|w|..] == [];
  }

  /** What Split has done after reading s[..i]: `res` and the pending word `cur`. */
  predicate SplitState(res: seq<string>, cur: string, s: string, i: nat) {
    i <= |s| && NoSpace(cur) && res + Words(cur + s[i..]) == Words(s)
  }

  lemma EmitWord(res: seq<string>, cur: string, s: string, i: nat)
    requires SplitState(res, cur, s, i) && i < |s| && cur != [] && IsSpace(s[i])
    ensures SplitState(res + [cur], [], s, i + 1)
  {
    assert cur + s[i..] == cur + [s[i]] + s[i + 1..];
    WordsCons(cur, s[i], s[i + 1..]);
    assert [] + s[i + 1..] == s[i + 1..];
  }

  lemma SkipSpace(res: seq<string>, s: string, i: nat)
    requires SplitState(res, [], s, i) && i < |s| && IsSpace(s[i])
    ensures SplitState(res, [], s, i + 1)
  {
    assert s[i..][1..] == s[i + 1..];
    assert [] + s[i..] == s[i..];
    assert [] + s[i + 1..] == s[i + 1..];
  }

  lemma KeepChar(res: seq<string>, cur: string, s: string, i: nat)
    requires SplitState(res, cur, s, i) && i < |s| && !IsSpace(s[i])
    ensures SplitState(res, cur + [s[i]], s, i + 1)
  {
    assert s[i..] == [s[i]] + s[i + 1..];
    assert cur + s[i..] == (cur + [s[i]]) + s[i + 1..];
  }

  lemma SplitStart(s: string)
    ensures SplitState([], [], s, 0)
  {
    assert [] + s[0..] == s;
  }

  lemma SplitEnd(res: seq<string>, cur: string, s: string)
    requires SplitState(res, cur, s, |s|)
    ensures (if cur == [] then res else res + [cur]) == Words(s)
  {
    assert s[|s|..] == [];
    assert cur + s[|s|..] == cur;
    if cur != [] {
      WordsSingle(cur);
    }
  }

  /** matrix.h `split`: accumulates non-space characters and emits a word at each space. */
  method Split(s: string) returns (res: seq<string>)
    ensures res == Words(s)
  {
    res := [];
    var cur: string := [];
    SplitStart(s);
    for i := 0 to |s|
      invariant SplitState(res, cur, s, i)
    {
      var c := s[i];
      if IsSpace(c) && cur != [] {
        EmitWord(res, cur, s, i);
        res := res + [cur];
        cur := [];
      } else if IsSpace(c) {
        SkipSpace(res, s, i);
      } else {
        KeepChar(res, cur, s, i);
        cur := cur + [c];
      }
    }
    SplitEnd(res, cur, s);
    if cur != [] {
      res := res + [cur];
    }
  }

  // ---------------------------------------------------------------- lines

  /** Index of the first `c` in `s`, or |s| when there is none (std::string::find). */
  function IndexOf(s: string, c: char): (k: nat)
    ensures k <= |s|
    ensures k < |s| ==> s[k] == c
    ensures forall i :: 0 <= i < k ==> s[i] != c
  {
    if s == [] || s[0] == c then 0 else 1 + IndexOf(s[1..], c)
  }

  lemma {:induction false} IndexOfAfter(l: string, c: char, rest: string)
    requires forall i :: 0 <= i < |l| ==> l[i] != c
    ensures IndexOf(l + [c] + rest, c) == |l|
  {
    if l != [] {
      assert (l + [c] + rest)[1..] == l[1..] + [c] + rest;
      IndexOfAfter(l[1..], c, rest);
    }
  }

  /** The lines std::getline reads from a stream holding `s`. */
  function Lines(s: string): seq<string>
    decreases |s|
  {
    if s == [] then []
    else
      var k := IndexOf(s, '\n');
      if k == |s| then [s] else [s[..k]] + Lines(s[k + 1..])
  }

  /** Every line terminated by '\n', concatenated: the text std::getline splits back. */
  function JoinLines(ls: seq<string>): string {
    if ls == [] then [] else ls[0] + "\n" + JoinLines(ls[1..])
  }

  predicate NoNewline(s: string) { forall i :: 0 <= i < |s| ==> s[i] != '\n' }

  lemma {:induction false} LinesOfJoin(ls: seq<string>)
    requires forall k :: 0 <= k < |ls| ==> NoNewline(ls[k])
    ensures Lines(JoinLines(ls)) == ls
  {
    if ls != [] {
      var rest := JoinLines(ls[1..]);
      IndexOfAfter(ls[0], '\n', rest);
      var s := ls[0] + "\n" + rest;
      assert s == ls[0] + ['\n'] + rest;
      assert s[..|ls[0]|] == ls[0];
      assert s[|ls[0]| + 1..] == rest;
      LinesOfJoin(ls[1..]);
    }
  }

  // ---------------------------------------------------------------- numbers

  predicate IsDigit(c: char) { '0' <= c <= '9' }

  predicate AllDigits(s: string) { forall i :: 0 <= i < |s| ==> IsDigit(s[i]) }

  function DigitChar(d: nat): (c: char)
    requires d < 10
    ensures IsDigit(c)
  {
    (('0' as int) + d) as char
  }

  function DigitValue(c: char): nat
    requires IsDigit(c)
  {
    (c as int) - ('0' as int)
  }

  /** std::to_string of a non-negative integer: decimal digits, no leading zeros. */
  function NatToString(n: nat): (s: string)
    ensures s != [] && AllDigits(s)
    decreases n
  {
    if n < 10 then [DigitChar(n)] else NatToString(n / 10) + [DigitChar(n % 10)]
  }

  /** std::to_string of an int: a '-' sign, then the digits of the magnitude. */
  function IntToString(i: int): string {
    if i < 0 then "-" + NatToString(-i) else NatToString(i)
  }

  /** The value of a string of decimal digits. */
  function DigitsValue(s: string): nat
    requires AllDigits(s)
  {
    if s == [] then 0 else 10 * DigitsValue(s[..|s| - 1]) + DigitValue(s[|s| - 1])
  }

  lemma {:induction false} DigitsOfNat(n: nat)
    ensures DigitsValue(NatToString(n)) == n
    decreases n
  {
    var s := NatToString(n);
    if n >= 10 {
      DigitsOfNat(n / 10);
      assert s[..|s| - 1] == NatToString(n / 10);
    }
  }

  /**
    The integer an optional '-' followed by one or more decimal digits
    denotes; None for any other text.
   */
  function ParseInteger(s: string): Option<int> {
    if |s| >= 1 && s[0] == '-' then
      (if |s| >= 2 && AllDigits(s[1..]) then Some(-(DigitsValue(s[1..]) as int)) else None)
    else if s != [] && AllDigits(s) then Some(DigitsValue(s))
    else None
  }

  lemma ParseIntToString(i: int)
    ensures ParseInteger(IntToString(i)) == Some(i)
  {
    if i < 0 {
      DigitsOfNat(-i);
      assert IntToString(i)[1..] == NatToString(-i);
    } else {
      DigitsOfNat(i);
    }
  }

  lemma IntToStringShape(i: int)
    ensures IntToString(i) != [] && NoSpace(IntToString(i)) && NoNewline(IntToString(i))
    ensures forall k :: 0 <= k < |IntToString(i)| ==> IntToString(i)[k] != '/'
    ensures IntToString(i)[0] != '#' && IntToString(i)[0] != '<'
  {
    var s := IntToString(i);
    if i < 0 {
      assert forall k :: 1 <= k < |s| ==> s[k] == NatToString(-i)[k - 1];
    }
  }

  datatype NumberError = InvalidArgument | OutOfRange

  /** std::stoll: a long long, or invalid_argument / out_of_range. */
  function Stoll(s: string): (r: Result<int, NumberError>)
    ensures r.Success? ==> LLONG_MIN <= r.value <= LLONG_MAX && ParseInteger(s) == Some(r.value)
    ensures r == Failure(InvalidArgument) <==> ParseInteger(s) == None
    ensures ParseInteger(s).Some? ==>
      if LLONG_MIN <= ParseInteger(s).value <= LLONG_MAX then r == Success(ParseInteger(s).value)
      else r == Failure(OutOfRange)
  {
    match ParseInteger(s)
    case None => Failure(InvalidArgument)
    case Some(v) => if LLONG_MIN <= v <= LLONG_MAX then Success(v) else Failure(OutOfRange)
  }

  /** std::stoi: an int, or invalid_argument / out_of_range. */
  function Stoi(s: string): (r: Result<int, NumberError>)
    ensures r.Success? ==> IsInt32(r.value) && ParseInteger(s) == Some(r.value)
    ensures r == Failure(InvalidArgument) <==> ParseInteger(s) == None
    ensures ParseInteger(s).Some? ==>
      if IsInt32(ParseInteger(s).value) then r == Success(ParseInteger(s).value) else r == Failure(OutOfRange)
  {
    match ParseInteger(s)
    case None => Failure(InvalidArgument)
    case Some(v) => if IsInt32(v) then Success(v) else Failure(OutOfRange)
  }

  /**
    std::stoul: strtoul accepts a '-' and negates the magnitude modulo 2^64;
    only a magnitude that does not fit unsigned long is out of range.
   */
  function Stoul(s: string): (r: Result<nat, NumberError>)
    ensures r.Success? ==> r.value < U64
  {
    match ParseInteger(s)
    case None => Failure(InvalidArgument)
    case Some(v) =>
      if Abs(v) >= U64 then Failure(OutOfRange)
      else if v < 0 then Success((U64 + v) % U64)
      else Success(v)
  }

  /** matrix.h `stoui`: std::stoul narrowed to unsigned, rejecting any value that changes. */
  function Stoui(s: string): (r: Result<nat, NumberError>)
    ensures r.Success? ==> r.value < U32
    ensures r.Success? <==> Stoul(s).Success? && Stoul(s).value < U32
  {
    var l :- Stoul(s);
    if l < U32 then Success(l) else Failure(OutOfRange)
  }

  lemma StouiOfNat(n: nat)
    requires n < U32
    ensures Stoui(NatToString(n)) == Success(n)
  {
    DigitsOfNat(n);
    assert NatToString(n)[0] != '-';
  }
}
