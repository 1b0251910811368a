/** What the evaluator's two tables mean: how a line becomes a definition,
    how a right-hand side splits into terms, how many of those terms are
    still unknown, what a right-hand side sums to, and when a table of
    values is a complete, well-founded solution of the definitions. */
module Equations {
  import opened Seqs
  import opened Text

  const UINT32_MODULUS: int := 0x1_0000_0000

  /** `uint32_t`. */
  type UInt32 = x: int | 0 <= x < 0x1_0000_0000

  /** Why an evaluation stops without a value for every variable. */
  datatype Failure =
    | InvalidArgument(token: string)  // std::stoi found no digits in the token
    | OutOfRange(token: string)       // std::stoi found a value outside int
    | NoProgress(pending: set<string>) // a whole pass resolved nothing; these stay unresolved

  datatype Result<T> = Ok(value: T) | Err(error: Failure)

  /** A variable name the evaluator can look up: non-empty, ASCII letters only. */
  predicate IsName(s: string) { s != [] && forall c :: c in s ==> IsAlpha(c) }

  predicate NamesOnly(expression: map<string, string>)
  {
    forall v :: v in expression ==> IsName(v)
  }

  // ---------------------------------------------------------------------
  // Reading a line

  /** The name a line defines: the text between the last two `=` (or before
      the only one), spaces removed; the empty name if there is no `=`. */
  function LineName(line: string): (name: string)
    ensures ' ' !in name && '=' !in name
  {
    var parts := Split(line, '=');
    SplitPieces(line, '=');
    if |parts| >= 2 then StripSpacesShape(parts[|parts| - 2]); StripSpaces(parts[|parts| - 2]) else []
  }

  /** The right-hand side a line defines: the text after its last `=`,
      spaces removed. */
  function LineRhs(line: string): (rhs: string)
    ensures ' ' !in rhs && '=' !in rhs
  {
    var parts := Split(line, '=');
    SplitPieces(line, '=');
    StripSpacesShape(parts[|parts| - 1]);
    StripSpaces(parts[|parts| - 1])
  }

  /** A line `l = r` with one `=` defines `l` as `r`, both without spaces. */
  lemma LineWithOneEquals(l: string, r: string)
    requires '=' !in l && '=' !in r
    ensures LineName(l + "=" + r) == StripSpaces(l)
    ensures LineRhs(l + "=" + r) == StripSpaces(r)
  {
    assert l + "=" + r == l + ['='] + r;
    SplitAtSep(l, r, '=');
    SplitWithoutSep(l, '=');
    SplitWithoutSep(r, '=');
  }

  /** A line without `=` defines the empty name as the whole line, spaces removed. */
  lemma LineWithoutEquals(line: string)
    requires '=' !in line
    ensures LineName(line) == [] && LineRhs(line) == StripSpaces(line)
  {
    SplitWithoutSep(line, '=');
  }

  /** Reading one more character of a line: `=` makes the right-hand side
      read so far the name; any other character leaves the name alone. */
  lemma LineNameSnoc(s: string, c: char)
    ensures LineName(s + [c]) == if c == '=' then LineRhs(s) else LineName(s)
  {
    SplitSnoc(s, c, '=');
    var p, q := Split(s, '='), Split(s + [c], '=');
    if c == '=' {
      assert q[|q| - 2] == p[|p| - 1];
    } else {
      assert |q| == |p|;
      if |p| >= 2 {
        assert q[|q| - 2] == p[|p| - 2];
      }
    }
  }

  /** Reading one more character of a line: `=` starts an empty right-hand
      side, a space is dropped, any other character extends it. */
  lemma LineRhsSnoc(s: string, c: char)
    ensures LineRhs(s + [c]) == if c == '=' then [] else LineRhs(s) + (if c == ' ' then [] else [c])
  {
    SplitSnoc(s, c, '=');
    var p, q := Split(s, '='), Split(s + [c], '=');
    if c != '=' {
      assert q[|q| - 1] == p[|p| - 1] + [c];
      StripSpacesSnoc(p[|p| - 1], c);
    }
  }

  /** The definition table after reading `lines` in order into an empty one. */
  function LoadAll(lines: seq<string>): (defs: map<string, string>)
  {
    if lines == [] then map[]
    else
      var last := lines[|lines| - 1];
      LoadAll(lines[..|lines| - 1])[LineName(last) := LineRhs(last)]
  }

  /** Later lines win: a name is defined by the last line that names it. */
  lemma {:induction false} LoadAllLastWins(lines: seq<string>, i: int)
    requires 0 <= i < |lines|
    requires forall j :: i < j < |lines| ==> LineName(lines[j]) != LineName(lines[i])
    ensures LineName(lines[i]) in LoadAll(lines)
    ensures LoadAll(lines)[LineName(lines[i])] == LineRhs(lines[i])
  {
    if i < |lines| - 1 {
      var init := lines[..|lines| - 1];
      assert init[i] == lines[i];
      assert forall j :: i < j < |init| ==> init[j] == lines[j];
      LoadAllLastWins(init, i);
    }
  }

  /** Every defined name comes from some line. */
  lemma {:induction false} LoadAllKeyLine(lines: seq<string>, k: string) returns (j: int)
    requires k in LoadAll(lines)
    ensures 0 <= j < |lines| && LineName(lines[j]) == k
  {
    var n := |lines| - 1;
    if k == LineName(lines[n]) {
      j := n;
    } else {
      var init := lines[..n];
      j := LoadAllKeyLine(init, k);
      assert lines[j] == init[j];
    }
  }

  /** Every line's name is defined. */
  lemma {:induction false} LoadAllHasLine(lines: seq<string>, j: int)
    requires 0 <= j < |lines|
    ensures LineName(lines[j]) in LoadAll(lines)
  {
    var n := |lines| - 1;
    if j < n {
      var init := lines[..n];
      LoadAllHasLine(init, j);
      assert lines[j] == init[j];
    }
  }

  // ---------------------------------------------------------------------
  // Terms of a right-hand side

  /** The pieces of `s` already ended by a `+`. */
  function CompletedTerms(s: string): (done: seq<string>)
  {
    if s == [] then []
    else
      var init := s[..|s| - 1];
      if s[|s| - 1] == '+' then CompletedTerms(init) + [CurrentTerm(init)] else CompletedTerms(init)
  }

  /** The text after the last `+` of `s` (all of `s` if it has none). */
  function CurrentTerm(s: string): (piece: string)
  {
    if s == [] then []
    else
      var init := s[..|s| - 1];
      if s[|s| - 1] == '+' then [] else CurrentTerm(init) + [s[|s| - 1]]
  }

  /** The terms of a right-hand side: the completed pieces followed by the
      current one, unless that is empty. */
  function Terms(rhs: string): (terms: seq<string>)
  {
    CompletedTerms(rhs) + (if CurrentTerm(rhs) == [] then [] else [CurrentTerm(rhs)])
  }

  /** The `+`-separated pieces are the completed pieces and the current one. */
  lemma {:induction false} SplitByPieces(s: string)
    ensures Split(s, '+') == CompletedTerms(s) + [CurrentTerm(s)]
  {
    if s != [] {
      SplitByPieces(s[..|s| - 1]);
    }
  }

  /** The terms are the `+`-separated pieces, except that a final empty
      piece (nothing after a trailing `+`, or an empty right-hand side) is
      not a term. */
  lemma TermsAsSplit(rhs: string)
    ensures Terms(rhs) == var parts := Split(rhs, '+');
      if parts[|parts| - 1] == [] then parts[..|parts| - 1] else parts
  {
    SplitByPieces(rhs);
    var parts := Split(rhs, '+');
    assert parts[..|parts| - 1] == CompletedTerms(rhs);
  }

  /** Reading one more character of a right-hand side: `+` completes the
      current piece, any other character extends it. */
  lemma PiecesSnoc(s: string, c: char)
    ensures c == '+' ==> CompletedTerms(s + [c]) == CompletedTerms(s) + [CurrentTerm(s)] && CurrentTerm(s + [c]) == []
    ensures c != '+' ==> CompletedTerms(s + [c]) == CompletedTerms(s) && CurrentTerm(s + [c]) == CurrentTerm(s) + [c]
  {
    SnocInit(s, c);
  }

  /** The piece ended by reading `c` after `s`: the current piece, with `c`
      appended unless `c` is the `+` that ends it. */
  function EndedTerm(s: string, c: char): (ended: string)
  {
    if c == '+' then CurrentTerm(s) else CurrentTerm(s) + [c]
  }

  /** The last character ends the last term. */
  lemma TermsEndLast(s: string, c: char)
    ensures Terms(s + [c]) == CompletedTerms(s) + [EndedTerm(s, c)]
  {
    PiecesSnoc(s, c);
  }

  /** A `+` completes everything before it: the pieces of what follows are
      those of a fresh right-hand side. */
  lemma {:induction false} PiecesAppend(p: string, q: string)
    requires p != [] && p[|p| - 1] == '+'
    ensures CompletedTerms(p + q) == CompletedTerms(p) + CompletedTerms(q)
    ensures CurrentTerm(p + q) == CurrentTerm(q)
  {
    if q == [] {
      assert p + q == p;
      assert CurrentTerm(p) == [];
    } else {
      var q', d := q[..|q| - 1], q[|q| - 1];
      PiecesAppend(p, q');
      SplitLast(q);
      AppendSnoc(p, q', d);
      PiecesSnoc(p + q', d);
      PiecesSnoc(q', d);
    }
  }

  /** After a `+`, the terms are the pieces before it followed by the terms
      of what comes after it. */
  lemma TermsSplitAt(p: string, q: string)
    requires p != [] && p[|p| - 1] == '+'
    ensures Terms(p + q) == CompletedTerms(p) + Terms(q)
  {
    PiecesAppend(p, q);
  }

  /** The state of `add_result`'s scan: the running sum, or the exception
      that stopped it, and the piece read since the last `+`. */
  datatype Scan = Scan(total: Result<UInt32>, piece: string)

  /** The scan of `add_result` after the characters before index `i`: a
      character other than `+` extends the piece; a `+` or the last
      character adds the piece's value to the sum and starts a new piece;
      an exception stops the scan. */
  function ScanTo(rhs: string, i: int, result: map<string, UInt32>): (scan: Scan)
    requires 0 <= i <= |rhs|
  {
    if i == 0 then Scan(Ok(0), [])
    else
      var before := ScanTo(rhs, i - 1, result);
      var c := rhs[i - 1];
      var piece := if c == '+' then before.piece else before.piece + [c];
      if before.total.Err? then before
      else if c == '+' || i == |rhs| then Scan(AddTerm(before.total, TermValue(piece, result)), [])
      else Scan(before.total, piece)
  }

  /** Before the end, a scan that has not stopped holds the sum of the
      completed pieces and the current piece. */
  lemma {:induction false} ScanToState(rhs: string, i: int, result: map<string, UInt32>)
    requires 0 <= i < |rhs| && ScanTo(rhs, i, result).total.Ok?
    ensures SumTerms(CompletedTerms(rhs[..i]), result) == ScanTo(rhs, i, result).total
    ensures ScanTo(rhs, i, result).piece == CurrentTerm(rhs[..i])
  {
    if i == 0 {
      assert rhs[..0] == [];
    } else {
      var k := i - 1;
      var s, c := rhs[..k], rhs[k];
      ScanToState(rhs, k, result);
      TakeSnoc(rhs, i);
      PiecesSnoc(s, c);
      if c == '+' {
        SumTermsSnoc(CompletedTerms(s), CurrentTerm(s), result);
      }
    }
  }

  /** A `+` or the last character ends a term: the scan adds the value of
      the piece it ended to the sum of the completed pieces. */
  lemma ScanStep(rhs: string, i: int, result: map<string, UInt32>)
    requires 0 < i <= |rhs| && (rhs[i - 1] == '+' || i == |rhs|)
    requires ScanTo(rhs, i - 1, result).total.Ok?
    ensures ScanTo(rhs, i, result).total ==
      AddTerm(SumTerms(CompletedTerms(rhs[..i - 1]), result), TermValue(EndedTerm(rhs[..i - 1], rhs[i - 1]), result))
  {
    var before := ScanTo(rhs, i - 1, result);
    if i - 1 < |rhs| {
      ScanToState(rhs, i - 1, result);
    }
    assert before.piece == CurrentTerm(rhs[..i - 1]);
  }

  /** The value of a right-hand side is that of its completed pieces plus
      the piece its last character ends. */
  lemma EvaluateLast(s: string, c: char, result: map<string, UInt32>)
    ensures Evaluate(s + [c], result) ==
      AddTerm(SumTerms(CompletedTerms(s), result), TermValue(EndedTerm(s, c), result))
  {
    TermsEndLast(s, c);
    SumTermsSnoc(CompletedTerms(s), EndedTerm(s, c), result);
  }

  /** When the terms up to the `+` at index `i - 1` fail, so does the whole
      right-hand side. */
  lemma EvaluateFailsBeforePlus(rhs: string, i: int, result: map<string, UInt32>)
    requires 0 < i < |rhs| && rhs[i - 1] == '+'
    requires AddTerm(SumTerms(CompletedTerms(rhs[..i - 1]), result), TermValue(CurrentTerm(rhs[..i - 1]), result)).Err?
    ensures Evaluate(rhs, result) ==
      AddTerm(SumTerms(CompletedTerms(rhs[..i - 1]), result), TermValue(CurrentTerm(rhs[..i - 1]), result))
  {
    var s, p, q := rhs[..i - 1], rhs[..i], rhs[i..];
    var done := CompletedTerms(s) + [CurrentTerm(s)];
    assert SumTerms(done, result).Err? by {
      SumTermsSnoc(CompletedTerms(s), CurrentTerm(s), result);
    }
    assert CompletedTerms(p) == done by {
      TakeSnoc(rhs, i);
      PiecesSnoc(s, '+');
    }
    assert Terms(rhs) == done + Terms(q) by {
      TakeDrop(rhs, i);
      TermsSplitAt(p, q);
    }
    SumTermsFailedPrefix(done, Terms(q), result);
    SumTermsSnoc(CompletedTerms(s), CurrentTerm(s), result);
  }

  /** A scan stopped by the term before a `+` holds the exception of the
      whole sum: the later terms do not matter. */
  lemma ScanStopsAtPlus(rhs: string, i: int, result: map<string, UInt32>)
    requires 0 < i < |rhs| && rhs[i - 1] == '+'
    requires ScanTo(rhs, i - 1, result).total.Ok? && ScanTo(rhs, i, result).total.Err?
    ensures Evaluate(rhs, result) == ScanTo(rhs, i, result).total
  {
    ScanStep(rhs, i, result);
    assert EndedTerm(rhs[..i - 1], '+') == CurrentTerm(rhs[..i - 1]);
    EvaluateFailsBeforePlus(rhs, i, result);
  }

  /** The last character ends the last term, whose value completes the scan. */
  lemma ScanEndsAtLast(rhs: string, result: map<string, UInt32>)
    requires rhs != [] && ScanTo(rhs, |rhs| - 1, result).total.Ok?
    ensures Evaluate(rhs, result) == ScanTo(rhs, |rhs|, result).total
  {
    var s, c := rhs[..|rhs| - 1], rhs[|rhs| - 1];
    ScanStep(rhs, |rhs|, result);
    TakeSnoc(rhs, |rhs|);
    TakeAll(rhs);
    EvaluateLast(s, c, result);
  }

  /** A scan that has stopped, or has read the whole right-hand side, holds
      its value. */
  lemma {:induction false} ScanToFinal(rhs: string, i: int, result: map<string, UInt32>)
    requires 0 <= i <= |rhs| && (i == |rhs| || ScanTo(rhs, i, result).total.Err?)
    ensures Evaluate(rhs, result) == ScanTo(rhs, i, result).total
  {
    if i == 0 {
      EvaluateEmpty(result);
    } else if ScanTo(rhs, i - 1, result).total.Err? {
      ScanToFinal(rhs, i - 1, result);
    } else if i == |rhs| {
      ScanEndsAtLast(rhs, result);
    } else {
      ScanStopsAtPlus(rhs, i, result);
    }
  }

  /** One character of `check_unknowns_num`'s scan: the letters of the
      current piece grow by a letter, and a `+` counts the piece it ends. */
  lemma CountStep(s: string, c: char, known: set<string>)
    ensures Letters(CurrentTerm(s + [c])) ==
      if c == '+' then [] else Letters(CurrentTerm(s)) + (if IsAlpha(c) then [c] else [])
    ensures CountUnknowns(CompletedTerms(s + [c]), known) ==
      CountUnknowns(CompletedTerms(s), known) + (if c == '+' && IsUnknown(CurrentTerm(s), known) then 1 else 0)
  {
    PiecesSnoc(s, c);
    if c == '+' {
      CountUnknownsSnoc(CompletedTerms(s), CurrentTerm(s), known);
    } else {
      LettersSnoc(CurrentTerm(s), c);
    }
  }

  /** The last character of `check_unknowns_num`'s scan counts the piece it
      ends, which is the last term. */
  lemma CountLast(s: string, c: char, known: set<string>)
    ensures UnknownCount(s + [c], known) ==
      CountUnknowns(CompletedTerms(s), known) + (if IsUnknown(EndedTerm(s, c), known) then 1 else 0)
  {
    TermsEndLast(s, c);
    CountUnknownsSnoc(CompletedTerms(s), EndedTerm(s, c), known);
  }

  /** The letters of the ended piece are those of the current piece and, when
      it is a letter, `c`. */
  lemma EndedLetters(s: string, c: char)
    ensures Letters(EndedTerm(s, c)) == Letters(CurrentTerm(s)) + (if IsAlpha(c) then [c] else [])
  {
    if c == '+' {
      assert EndedTerm(s, c) == CurrentTerm(s);
    } else {
      LettersSnoc(CurrentTerm(s), c);
    }
  }

  /** No term contains `+`, and only the empty right-hand side has no terms. */
  lemma TermsShape(rhs: string)
    ensures forall i :: 0 <= i < |Terms(rhs)| ==> '+' !in Terms(rhs)[i]
    ensures Terms(rhs) == [] <==> rhs == []
  {
    TermsAsSplit(rhs);
    SplitPieces(rhs, '+');
    JoinSplit(rhs, '+');
  }

  /** After a `+` at index `i`, the terms are the pieces before it followed
      by the terms of what comes after it. */
  lemma TermsAfterPlus(rhs: string, i: int)
    requires 0 <= i < |rhs| && rhs[i] == '+'
    ensures Terms(rhs) == Split(rhs[..i], '+') + Terms(rhs[i + 1..])
  {
    var s, p, q := rhs[..i], rhs[..i + 1], rhs[i + 1..];
    assert CompletedTerms(p) == Split(s, '+') by {
      TakeSnoc(rhs, i + 1);
      PiecesSnoc(s, '+');
      SplitByPieces(s);
    }
    TakeDrop(rhs, i + 1);
    TermsSplitAt(p, q);
  }

  /** The variable a term names for the unknown count: its letters. */
  predicate IsUnknown(term: string, known: set<string>)
  {
    Letters(term) != [] && Letters(term) !in known
  }

  /** The number of terms, counted with multiplicity, whose letters name a
      variable outside `known`. */
  function CountUnknowns(terms: seq<string>, known: set<string>): (n: nat)
    ensures n <= |terms|
  {
    if terms == [] then 0
    else CountUnknowns(terms[..|terms| - 1], known) + (if IsUnknown(terms[|terms| - 1], known) then 1 else 0)
  }

  lemma CountUnknownsSnoc(terms: seq<string>, t: string, known: set<string>)
    ensures CountUnknowns(terms + [t], known) == CountUnknowns(terms, known) + (if IsUnknown(t, known) then 1 else 0)
  {
    SnocInit(terms, t);
  }

  /** The count is zero exactly when no term is unknown. */
  lemma {:induction false} CountUnknownsZero(terms: seq<string>, known: set<string>)
    ensures CountUnknowns(terms, known) == 0 <==> forall i :: 0 <= i < |terms| ==> !IsUnknown(terms[i], known)
  {
    if terms != [] {
      var init := terms[..|terms| - 1];
      CountUnknownsZero(init, known);
      assert forall i :: 0 <= i < |init| ==> init[i] == terms[i];
    }
  }

  /** The count adds up over a concatenation of term lists. */
  lemma {:induction false} CountUnknownsAppend(a: seq<string>, b: seq<string>, known: set<string>)
    ensures CountUnknowns(a + b, known) == CountUnknowns(a, known) + CountUnknowns(b, known)
  {
    if b == [] {
      assert a + b == a;
    } else {
      var b' := b[..|b| - 1];
      SplitLast(b);
      AppendSnoc(a, b', b[|b| - 1]);
      CountUnknownsAppend(a, b', known);
      CountUnknownsSnoc(a + b', b[|b| - 1], known);
      CountUnknownsSnoc(b', b[|b| - 1], known);
    }
  }

  /** A right-hand side with no unknown keeps none when more variables get values. */
  lemma ReadyStaysReady(rhs: string, known: set<string>, more: set<string>)
    requires known <= more && UnknownCount(rhs, known) == 0
    ensures UnknownCount(rhs, more) == 0
  {
    CountUnknownsZero(Terms(rhs), known);
    CountUnknownsZero(Terms(rhs), more);
  }

  /** The number of unknown variables a right-hand side refers to. */
  function UnknownCount(rhs: string, known: set<string>): (n: nat)
  {
    CountUnknowns(Terms(rhs), known)
  }

  // ---------------------------------------------------------------------
  // Values

  /** A term's value: the stored value when the term is a key of `result`,
      otherwise `std::stoi` of the term converted to `uint32_t`. */
  function TermValue(term: string, result: map<string, UInt32>): (v: Result<UInt32>)
  {
    if term in result then Ok(result[term])
    else
      match StoI(term)
      case Converted(n) => Ok(n % UINT32_MODULUS)
      case NotANumber => Err(InvalidArgument(term))
      case OutOfIntRange => Err(OutOfRange(term))
  }

  /** A numeral that is not a key and fits in `int` contributes its decimal value. */
  lemma TermValueOfNumeral(term: string, result: map<string, UInt32>)
    requires term !in result && IsNumeral(term) && DecimalValue(term) <= INT_MAX
    ensures TermValue(term, result).Ok? && TermValue(term, result).value == DecimalValue(term)
  {
    DecimalValueNonNegative(term);
    StoIOfNumeral(term);
  }

  /** A word that is not a key makes `std::stoi` throw. */
  lemma TermValueOfWord(term: string, result: map<string, UInt32>)
    requires term !in result && term != [] && IsAlpha(term[0])
    ensures TermValue(term, result) == Err(InvalidArgument(term))
  {
    StoIOfWord(term);
  }

  /** One `uint32_t` addition of a term's value to a running sum; the first
      exception wins. */
  function AddTerm(total: Result<UInt32>, value: Result<UInt32>): (sum: Result<UInt32>)
  {
    if total.Err? then total
    else if value.Err? then value
    else Ok((total.value + value.value) % UINT32_MODULUS)
  }

  /** The `uint32_t` sum of the terms, left to right, stopping at the first
      term whose value is an exception. */
  function SumTerms(terms: seq<string>, result: map<string, UInt32>): (sum: Result<UInt32>)
  {
    if terms == [] then Ok(0)
    else AddTerm(SumTerms(terms[..|terms| - 1], result), TermValue(terms[|terms| - 1], result))
  }

  /** The sum has a value exactly when every term has one. */
  lemma SumTermsOk(terms: seq<string>, result: map<string, UInt32>)
    ensures SumTerms(terms, result).Ok? <==> forall i :: 0 <= i < |terms| ==> TermValue(terms[i], result).Ok?
  {
    if SumTerms(terms, result).Ok? {
      SumTermsOkValued(terms, result);
    } else {
      SumTermsErrUnvalued(terms, result);
    }
  }

  lemma {:induction false} SumTermsOkValued(terms: seq<string>, result: map<string, UInt32>)
    requires SumTerms(terms, result).Ok?
    ensures forall i :: 0 <= i < |terms| ==> TermValue(terms[i], result).Ok?
  {
    if terms != [] {
      var init := terms[..|terms| - 1];
      SumTermsOkValued(init, result);
      assert forall i :: 0 <= i < |init| ==> terms[i] == init[i];
    }
  }

  lemma {:induction false} SumTermsErrUnvalued(terms: seq<string>, result: map<string, UInt32>)
    requires SumTerms(terms, result).Err?
    ensures exists i :: 0 <= i < |terms| && TermValue(terms[i], result).Err?
  {
    var init, t := terms[..|terms| - 1], terms[|terms| - 1];
    if SumTerms(init, result).Err? {
      SumTermsErrUnvalued(init, result);
      var i :| 0 <= i < |init| && TermValue(init[i], result).Err?;
      assert terms[i] == init[i];
    } else {
      assert TermValue(terms[|terms| - 1], result).Err?;
    }
  }

  /** A sum fails only with an exception of `std::stoi`. */
  lemma {:induction false} SumTermsFailure(terms: seq<string>, result: map<string, UInt32>)
    ensures SumTerms(terms, result).Err? ==>
      SumTerms(terms, result).error.InvalidArgument? || SumTerms(terms, result).error.OutOfRange?
  {
    if terms != [] {
      SumTermsFailure(terms[..|terms| - 1], result);
    }
  }

  lemma SumTermsSnoc(terms: seq<string>, t: string, result: map<string, UInt32>)
    ensures SumTerms(terms + [t], result) == AddTerm(SumTerms(terms, result), TermValue(t, result))
  {
    SnocInit(terms, t);
  }

  /** Once a prefix of the terms has failed, later terms do not matter. */
  lemma {:induction false} SumTermsFailedPrefix(a: seq<string>, b: seq<string>, result: map<string, UInt32>)
    requires SumTerms(a, result).Err?
    ensures SumTerms(a + b, result) == SumTerms(a, result)
  {
    if b == [] {
      assert a + b == a;
    } else {
      var b' := b[..|b| - 1];
      SplitLast(b);
      AppendSnoc(a, b', b[|b| - 1]);
      SumTermsFailedPrefix(a, b', result);
      SumTermsSnoc(a + b', b[|b| - 1], result);
    }
  }

  /** The exact integer sum of the terms' values, with no wrap-around: stored
      values and `std::stoi` results, which may be negative. */
  function RawTotal(terms: seq<string>, result: map<string, UInt32>): (total: int)
    requires forall i :: 0 <= i < |terms| ==> terms[i] in result || StoI(terms[i]).Converted?
  {
    if terms == [] then 0
    else
      var t := terms[|terms| - 1];
      RawTotal(terms[..|terms| - 1], result) + (if t in result then result[t] else StoI(t).n)
  }

  /** When every term has a value, the left-to-right `uint32_t` sum is the
      exact integer sum reduced once modulo 2^32. */
  lemma {:induction false} SumTermsWraps(terms: seq<string>, result: map<string, UInt32>)
    requires forall i :: 0 <= i < |terms| ==> terms[i] in result || StoI(terms[i]).Converted?
    ensures SumTerms(terms, result) == Ok(RawTotal(terms, result) % UINT32_MODULUS)
  {
    if terms != [] {
      var init, t := terms[..|terms| - 1], terms[|terms| - 1];
      assert forall i :: 0 <= i < |init| ==> init[i] == terms[i];
      SumTermsWraps(init, result);
      TermValueWraps(t, result);
      AddWraps(SumTerms(init, result), RawTotal(init, result), TermValue(t, result),
        if t in result then result[t] else StoI(t).n);
    }
  }

  lemma TermValueWraps(t: string, result: map<string, UInt32>)
    requires t in result || StoI(t).Converted?
    ensures TermValue(t, result) == Ok((if t in result then result[t] else StoI(t).n) % UINT32_MODULUS)
  {
  }

  /** Adding a reduced value to a reduced sum reduces the exact sum. */
  lemma AddWraps(total: Result<UInt32>, s: int, value: Result<UInt32>, x: int)
    requires total == Ok(s % UINT32_MODULUS) && value == Ok(x % UINT32_MODULUS)
    ensures AddTerm(total, value) == Ok((s + x) % UINT32_MODULUS)
  {
    ModAddMod(s, x);
  }

  lemma ModAddMod(s: int, x: int)
    ensures (s % UINT32_MODULUS + x % UINT32_MODULUS) % UINT32_MODULUS == (s + x) % UINT32_MODULUS
  {
    var m := UINT32_MODULUS;
    var qs, qx := s / m, x / m;
    assert s == qs * m + s % m;
    assert x == qx * m + x % m;
    assert s + x == (qs + qx) * m + (s % m + x % m);
  }

  /** Two tables that agree on every term give the same sum. */
  lemma {:induction false} SumTermsAgree(terms: seq<string>, r1: map<string, UInt32>, r2: map<string, UInt32>)
    requires forall i :: 0 <= i < |terms| ==> (terms[i] in r1 <==> terms[i] in r2)
    requires forall i :: 0 <= i < |terms| && terms[i] in r1 ==> r1[terms[i]] == r2[terms[i]]
    ensures SumTerms(terms, r1) == SumTerms(terms, r2)
  {
    if terms != [] {
      var init := terms[..|terms| - 1];
      assert forall i :: 0 <= i < |init| ==> init[i] == terms[i];
      SumTermsAgree(init, r1, r2);
    }
  }

  /** What a right-hand side evaluates to against a table of values. */
  function Evaluate(rhs: string, result: map<string, UInt32>): (value: Result<UInt32>)
  {
    SumTerms(Terms(rhs), result)
  }

  /** An empty right-hand side is 0. */
  lemma EvaluateEmpty(result: map<string, UInt32>)
    ensures Evaluate([], result) == Ok(0)
  {
    assert Terms([]) == [];
  }

  // ---------------------------------------------------------------------
  // Resolution

  /** `v` holds the value of its right-hand side, and every variable its
      terms refer to was resolved before it. */
  predicate ResolvedIn(expression: map<string, string>, result: map<string, UInt32>, rank: map<string, nat>, v: string)
  {
    && v in expression && v in result && v in rank
    && Evaluate(expression[v], result) == Ok(result[v])
    && forall t :: t in Terms(expression[v]) && Letters(t) != [] ==>
         Letters(t) in result && Letters(t) in rank && rank[Letters(t)] < rank[v]
  }

  /** A partial evaluation: every value in `result` belongs to a defined
      variable, was computed from earlier values only (`rank` gives the
      order), and is the sum of its terms. */
  predicate Partial(expression: map<string, string>, result: map<string, UInt32>, rank: map<string, nat>)
  {
    && NamesOnly(expression)
    && Ranked(expression, result, rank)
    && AllResolved(expression, result, rank)
  }

  /** Only defined variables are resolved, and each has a rank below the
      number of resolved variables. */
  predicate Ranked(expression: map<string, string>, result: map<string, UInt32>, rank: map<string, nat>)
  {
    && result.Keys <= expression.Keys
    && rank.Keys == result.Keys
    && (forall v :: v in rank ==> rank[v] < |result|)
  }

  predicate AllResolved(expression: map<string, string>, result: map<string, UInt32>, rank: map<string, nat>)
  {
    forall v :: v in result ==> ResolvedIn(expression, result, rank, v)
  }

  /** Every defined variable has a value, and each value is the sum of its terms. */
  predicate IsSolution(expression: map<string, string>, result: map<string, UInt32>)
  {
    && result.Keys == expression.Keys
    && forall v :: v in result ==> Evaluate(expression[v], result) == Ok(result[v])
  }

  /** Every variable a term refers to is defined. */
  predicate Closed(expression: map<string, string>)
  {
    forall v, t :: v in expression && t in Terms(expression[v]) && Letters(t) != [] ==> Letters(t) in expression
  }

  /** `rank` orders the definitions so that references point to smaller ranks. */
  predicate Acyclic(expression: map<string, string>, rank: map<string, nat>)
  {
    && expression.Keys <= rank.Keys
    && forall v, t :: v in expression && t in Terms(expression[v]) && Letters(t) in expression ==>
         rank[Letters(t)] < rank[v]
  }

  /** Every term is a variable name or something `std::stoi` converts. */
  predicate WellFormed(expression: map<string, string>)
  {
    forall v, t :: v in expression && t in Terms(expression[v]) ==> IsName(t) || StoI(t).Converted?
  }

  ghost predicate Solvable(expression: map<string, string>)
  {
    WellFormed(expression) && Closed(expression) && exists rank :: Acyclic(expression, rank)
  }

  /** A variable with no unknown reference can be summed exactly when each of
      its terms is a name or a convertible numeral. */
  lemma ReadyEvaluates(expression: map<string, string>, result: map<string, UInt32>, v: string)
    requires NamesOnly(expression) && result.Keys <= expression.Keys
    requires v in expression && UnknownCount(expression[v], result.Keys) == 0
    ensures WellFormed(expression) ==> Evaluate(expression[v], result).Ok?
  {
    var terms := Terms(expression[v]);
    CountUnknownsZero(terms, result.Keys);
    if WellFormed(expression) {
      forall i | 0 <= i < |terms| ensures TermValue(terms[i], result).Ok? {
        var t := terms[i];
        assert t in terms;
        if IsName(t) {
          LettersShape(t);
        }
      }
      SumTermsOk(terms, result);
    }
  }

  /** If the definitions are closed and acyclic, some unresolved variable
      has no unknown reference: a pass can always make progress. */
  lemma ReadyExists(expression: map<string, string>, result: map<string, UInt32>, rank: map<string, nat>, v: string)
    requires Closed(expression) && Acyclic(expression, rank)
    requires v in expression && v !in result
    ensures exists w :: w in expression && w !in result && UnknownCount(expression[w], result.Keys) == 0
    decreases rank[v]
  {
    var terms := Terms(expression[v]);
    if UnknownCount(expression[v], result.Keys) != 0 {
      CountUnknownsZero(terms, result.Keys);
      var i :| 0 <= i < |terms| && IsUnknown(terms[i], result.Keys);
      var u := Letters(terms[i]);
      assert terms[i] in terms;
      ReadyExists(expression, result, rank, u);
    }
  }

  /** A pass that leaves some variable unresolved while every unresolved
      variable still has an unknown reference proves the definitions
      undefined-referencing or cyclic. */
  lemma StuckIsUnsolvable(expression: map<string, string>, result: map<string, UInt32>)
    requires exists v :: v in expression && v !in result
    requires forall v :: v in expression && v !in result ==> UnknownCount(expression[v], result.Keys) > 0
    ensures !(Closed(expression) && exists rank :: Acyclic(expression, rank))
  {
    if Closed(expression) && exists rank :: Acyclic(expression, rank) {
      var rank :| Acyclic(expression, rank);
      var v :| v in expression && v !in result;
      ReadyExists(expression, result, rank, v);
    }
  }

  /** A new key that no term mentions changes no sum. */
  lemma SumTermsNewKey(terms: seq<string>, result: map<string, UInt32>, v: string, x: UInt32)
    requires v !in result
    requires forall i :: 0 <= i < |terms| ==> terms[i] != v
    ensures SumTerms(terms, result[v := x]) == SumTerms(terms, result)
  {
    SumTermsAgree(terms, result[v := x], result);
  }

  /** A variable that is not yet resolved but has no unknown reference is
      not among its own terms. */
  lemma ReadyNotSelfReferent(expression: map<string, string>, result: map<string, UInt32>, v: string)
    requires NamesOnly(expression)
    requires v in expression && v !in result
    requires UnknownCount(expression[v], result.Keys) == 0
    ensures forall i :: 0 <= i < |Terms(expression[v])| ==> Terms(expression[v])[i] != v
  {
    var terms := Terms(expression[v]);
    assert IsName(v);
    LettersShape(v);
    assert IsUnknown(v, result.Keys);
    CountUnknownsZero(terms, result.Keys);
  }

  /** A resolved variable does not mention a variable that is not yet resolved. */
  lemma ResolvedNotReferent(expression: map<string, string>, result: map<string, UInt32>, rank: map<string, nat>, u: string, v: string)
    requires Partial(expression, result, rank)
    requires u in result && v in expression && v !in result
    ensures forall i :: 0 <= i < |Terms(expression[u])| ==> Terms(expression[u])[i] != v
  {
    var ts := Terms(expression[u]);
    assert IsName(v);
    LettersShape(v);
    assert ResolvedIn(expression, result, rank, u);
    forall i | 0 <= i < |ts| ensures ts[i] != v {
      assert ts[i] in ts;
    }
  }

  /** Adding a variable whose references are all resolved, with its sum,
      keeps the evaluation partial; nothing already resolved changes. */
  lemma ResolveStep(expression: map<string, string>, result: map<string, UInt32>, rank: map<string, nat>, v: string, x: UInt32)
    requires Partial(expression, result, rank)
    requires v in expression && v !in result
    requires UnknownCount(expression[v], result.Keys) == 0
    requires Evaluate(expression[v], result) == Ok(x)
    ensures Partial(expression, result[v := x], rank[v := |result|])
  {
    RankedAfterStep(expression, result, rank, v, x);
    AllResolvedAfterStep(expression, result, rank, v, x);
  }

  lemma RankedAfterStep(expression: map<string, string>, result: map<string, UInt32>, rank: map<string, nat>, v: string, x: UInt32)
    requires Ranked(expression, result, rank)
    requires v in expression && v !in result
    ensures Ranked(expression, result[v := x], rank[v := |result|])
  {
    var result', rank' := result[v := x], rank[v := |result|];
    assert result'.Keys == result.Keys + {v};
    assert |result'| == |result| + 1;
  }

  lemma AllResolvedAfterStep(expression: map<string, string>, result: map<string, UInt32>, rank: map<string, nat>, v: string, x: UInt32)
    requires Partial(expression, result, rank)
    requires v in expression && v !in result
    requires UnknownCount(expression[v], result.Keys) == 0
    requires Evaluate(expression[v], result) == Ok(x)
    ensures AllResolved(expression, result[v := x], rank[v := |result|])
  {
    var result', rank' := result[v := x], rank[v := |result|];
    forall u | u in result' ensures ResolvedIn(expression, result', rank', u) {
      if u == v {
        ReadyOrdered(expression, result, rank, v, x);
      } else {
        ResolvedKept(expression, result, rank, u, v, x);
      }
    }
  }

  lemma ResolvedKept(expression: map<string, string>, result: map<string, UInt32>, rank: map<string, nat>, u: string, v: string, x: UInt32)
    requires Partial(expression, result, rank)
    requires u in result && v in expression && v !in result
    ensures ResolvedIn(expression, result[v := x], rank[v := |result|], u)
  {
    assert ResolvedIn(expression, result, rank, u);
    ResolvedNotReferent(expression, result, rank, u, v);
    SumTermsNewKey(Terms(expression[u]), result, v, x);
  }

  lemma ReadyOrdered(expression: map<string, string>, result: map<string, UInt32>, rank: map<string, nat>, v: string, x: UInt32)
    requires Partial(expression, result, rank)
    requires v in expression && v !in result
    requires UnknownCount(expression[v], result.Keys) == 0
    requires Evaluate(expression[v], result) == Ok(x)
    ensures ResolvedIn(expression, result[v := x], rank[v := |result|], v)
  {
    var terms := Terms(expression[v]);
    ReadyNotSelfReferent(expression, result, v);
    SumTermsNewKey(terms, result, v, x);
    CountUnknownsZero(terms, result.Keys);
    forall t | t in terms && Letters(t) != []
      ensures Letters(t) in result && rank[Letters(t)] < |result|
    {
      var i :| 0 <= i < |terms| && terms[i] == t;
      assert !IsUnknown(terms[i], result.Keys);
    }
  }

  /** A partial evaluation that covers every definition is a solution, the
      only one, and its definitions were well formed, closed and acyclic all
      along. */
  lemma FullySolved(expression: map<string, string>, result: map<string, UInt32>, rank: map<string, nat>)
    requires Partial(expression, result, rank) && result.Keys == expression.Keys
    ensures IsSolution(expression, result)
    ensures Solvable(expression)
    ensures forall other :: IsSolution(expression, other) ==> other == result
  {
    forall other | IsSolution(expression, other) ensures other == result {
      SolutionIsUnique(expression, result, rank, other);
    }
    assert Acyclic(expression, rank);
    forall v, t | v in expression && t in Terms(expression[v]) ensures IsName(t) || StoI(t).Converted? {
      assert ResolvedIn(expression, result, rank, v);
      var terms := Terms(expression[v]);
      var i :| 0 <= i < |terms| && terms[i] == t;
      SumTermsOk(terms, result);
      assert TermValue(terms[i], result).Ok?;
    }
  }

  /** A full partial evaluation is the only solution: any table in which
      every defined variable holds the sum of its terms equals it. Hence the
      values do not depend on the order in which variables were resolved. */
  lemma SolutionIsUnique(expression: map<string, string>, result: map<string, UInt32>, rank: map<string, nat>, other: map<string, UInt32>)
    requires Partial(expression, result, rank) && result.Keys == expression.Keys
    requires IsSolution(expression, other)
    ensures result == other
  {
    forall v | v in result ensures result[v] == other[v] {
      AgreeAt(expression, result, rank, other, v);
    }
  }

  lemma AgreeAt(expression: map<string, string>, result: map<string, UInt32>, rank: map<string, nat>, other: map<string, UInt32>, v: string)
    requires Partial(expression, result, rank) && result.Keys == expression.Keys
    requires IsSolution(expression, other)
    requires v in result
    ensures result[v] == other[v]
    decreases rank[v]
  {
    assert ResolvedIn(expression, result, rank, v);
    var terms := Terms(expression[v]);
    forall i | 0 <= i < |terms| && terms[i] in result ensures result[terms[i]] == other[terms[i]] {
      var t := terms[i];
      assert t in terms && IsName(t);
      LettersShape(t);
      AgreeAt(expression, result, rank, other, t);
    }
    SumTermsAgree(terms, result, other);
  }
}
