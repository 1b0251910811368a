/** The evaluator object: a table of definitions read line by line, a table
    of values filled in pass after pass, and the four operations that read
    a line, count the unknowns of a right-hand side, sum a right-hand side,
    and run passes until every variable has a value. */
module Evaluator {
  import opened Seqs
  import opened Text
  import opened Equations

  /** How a run ends: every variable resolved, or the reason it stopped. */
  datatype Outcome = Pass | Fail(error: Failure)

  /** How one pass ends: some variable resolved, none resolved, or a
      `std::stoi` exception. */
  datatype PassOutcome = Progressed | Stalled | Raised(error: Failure)

  class EquationEvaluator {
    /** Each defined name with its right-hand side, spaces removed. */
    var expression: map<string, string>
    /** The value of each variable resolved so far. */
    var result: map<string, UInt32>
    /** The pass-order position at which each resolved variable got its value. */
    ghost var rank: map<string, nat>

    /** Only defined variables have values, and when every defined name is a
        proper name, each value was computed from earlier values only. */
    ghost predicate Valid()
      reads this
    {
      && result.Keys <= expression.Keys
      && (NamesOnly(expression) ==> Partial(expression, result, rank))
    }

    /** Reads the lines in order into an empty definition table; nothing is
        resolved yet. */
    constructor(lines: seq<string>)
      ensures expression == LoadAll(lines)
      ensures result == map[] && rank == map[]
      ensures Valid()
    {
      expression := map[];
      result := map[];
      rank := map[];
      new;
      var j := 0;
      while j < |lines|
        invariant 0 <= j <= |lines|
        invariant expression == LoadAll(lines[..j])
        invariant result == map[] && rank == map[]
      {
        TakeOfTake(lines, j);
        BuildExpression(lines[j]);
        j := j + 1;
      }
      TakeAll(lines);
    }

    /** Scans the line once: spaces are dropped, each `=` turns the text read
        so far into the name, and what follows the last `=` is stored as
        that name's right-hand side, replacing an earlier definition. */
    method BuildExpression(line: string)
      modifies this`expression
      ensures expression == old(expression)[LineName(line) := LineRhs(line)]
    {
      var buffer: string := [];
      var variableName: string := [];
      var i := 0;
      while i < |line|
        invariant 0 <= i <= |line|
        invariant expression == old(expression)
        invariant variableName == LineName(line[..i])
        invariant buffer == LineRhs(line[..i])
      {
        TakeSnoc(line, i + 1);
        LineNameSnoc(line[..i], line[i]);
        LineRhsSnoc(line[..i], line[i]);
        if line[i] != '=' {
          if line[i] != ' ' {
            buffer := buffer + [line[i]];
          }
        } else {
          variableName := buffer;
          buffer := [];
        }
        i := i + 1;
      }
      TakeAll(line);
      expression := expression[variableName := buffer];
    }

    /** The number of terms of `rhs` whose letters name a variable without a
        value yet, one per occurrence. */
    method CheckUnknownsNum(rhs: string) returns (unknowns: nat)
      ensures unknowns == UnknownCount(rhs, result.Keys)
      ensures unknowns <= |Terms(rhs)|
      ensures rhs == [] ==> unknowns == 0
    {
      var buffer: string := [];
      unknowns := 0;
      var i := 0;
      assert CurrentTerm(rhs[..0]) == [] && CompletedTerms(rhs[..0]) == [] by {
        assert rhs[..0] == [];
      }
      while i < |rhs|
        invariant 0 <= i <= |rhs|
        invariant i < |rhs| ==> buffer == Letters(CurrentTerm(rhs[..i]))
        invariant i < |rhs| ==> unknowns == CountUnknowns(CompletedTerms(rhs[..i]), result.Keys)
        invariant i == |rhs| ==> unknowns == UnknownCount(rhs, result.Keys)
      {
        ghost var s := rhs[..i];
        TakeSnoc(rhs, i + 1);
        EndedLetters(s, rhs[i]);
        if IsAlpha(rhs[i]) {
          buffer := buffer + [rhs[i]];
        }
        ghost var ended := buffer;
        assert ended == Letters(EndedTerm(s, rhs[i]));
        ghost var counted := unknowns + (if IsUnknown(EndedTerm(s, rhs[i]), result.Keys) then 1 else 0);
        if (rhs[i] == '+' || i == |rhs| - 1) && buffer != [] {
          if buffer !in result {
            unknowns := unknowns + 1;
          }
          buffer := [];
        }
        if i == |rhs| - 1 {
          TakeSnoc(rhs, i + 1);
          TakeAll(rhs);
          CountLast(s, rhs[i], result.Keys);
          assert unknowns == counted;
        } else {
          CountStep(s, rhs[i], result.Keys);
          if rhs[i] == '+' {
            assert EndedTerm(s, rhs[i]) == CurrentTerm(s);
            assert unknowns == counted;
            assert buffer == [];
          } else {
            assert buffer == ended;
          }
          assert buffer == Letters(CurrentTerm(s + [rhs[i]]));
          assert unknowns == CountUnknowns(CompletedTerms(s + [rhs[i]]), result.Keys);
        }
        i := i + 1;
      }
    }

    /** Sums the terms of `name`'s right-hand side left to right in
        `uint32_t`, taking a term's stored value when it is a resolved name
        and `std::stoi` of it otherwise; records the sum as `name`'s value,
        or stops at the first term `std::stoi` rejects, recording nothing.
        A name without a definition gets an empty one, which sums to 0. */
    method AddResult(name: string) returns (value: Result<UInt32>)
      modifies this`expression, this`result
      ensures expression == if name in old(expression) then old(expression) else old(expression)[name := []]
      ensures value == Evaluate(expression[name], old(result))
      ensures result == if value.Ok? then old(result)[name := value.value] else old(result)
    {
      if name !in expression {
        // `expression[name]` inserts an empty right-hand side for a new name.
        expression := expression[name := []];
      }
      var rhs, known := expression[name], result;
      ghost var defs := expression;
      var buffer: string := [];
      var res: UInt32 := 0;
      var i := 0;
      while i < |rhs|
        invariant 0 <= i <= |rhs|
        invariant expression == defs && result == known
        invariant ScanTo(rhs, i, known) == Scan(Ok(res), buffer)
      {
        if rhs[i] != '+' {
          buffer := buffer + [rhs[i]];
        }
        if rhs[i] == '+' || i == |rhs| - 1 {
          // The stored value of a resolved name, else std::stoi of the term.
          var term := TermValue(buffer, known);
          if term.Err? {
            ScanToFinal(rhs, i + 1, known);
            return term;
          }
          res := (res + term.value) % UINT32_MODULUS;
          buffer := [];
        }
        i := i + 1;
      }
      ScanToFinal(rhs, i, known);
      value := Ok(res);
      result := result[name := res];
    }

    /** Runs passes over every defined variable until every variable has a
        value. A `std::stoi` exception stops the run, and so does a pass
        that resolves nothing, with the variables still pending. */
    method RunEvaluation() returns (outcome: Outcome)
      requires Valid()
      modifies this`expression, this`result, this`rank
      ensures expression == old(expression)
      ensures Valid()
      ensures forall v :: v in old(result) ==> v in result && result[v] == old(result)[v]
      ensures outcome.Pass? <==> result.Keys == expression.Keys
      ensures outcome.Fail? && outcome.error.NoProgress? ==>
        && outcome.error.pending == expression.Keys - result.Keys != {}
        && forall v :: v in outcome.error.pending ==> UnknownCount(expression[v], result.Keys) > 0
      ensures outcome.Fail? && !outcome.error.NoProgress? ==>
        exists v :: v in expression && v !in result && UnknownCount(expression[v], result.Keys) == 0
          && Evaluate(expression[v], result) == Err(outcome.error)
      ensures NamesOnly(expression) ==> (outcome.Pass? <==> Solvable(expression))
      ensures NamesOnly(expression) && outcome.Pass? ==>
        IsSolution(expression, result) && forall other :: IsSolution(expression, other) ==> other == result
    {
      while |result| < |expression|
        invariant expression == old(expression)
        invariant Valid()
        invariant forall v :: v in old(result) ==> v in result && result[v] == old(result)[v]
        decreases |expression| - |result|
      {
        KeysCard(result.Keys, expression.Keys);
        ghost var start := result;
        var pass := EvaluationPass();
        match pass
        case Raised(error) =>
          return Fail(error);
        case Stalled =>
          KeysCard(result.Keys, expression.Keys);
          var pending := expression.Keys - result.Keys;
          ghost var v :| v in expression && v !in result;
          assert v in pending;
          StuckIsUnsolvable(expression, result);
          return Fail(NoProgress(pending));
        case Progressed =>
      }
      KeysCard(result.Keys, expression.Keys);
      outcome := Pass;
      if NamesOnly(expression) {
        FullySolved(expression, result, rank);
      }
    }

    /** One pass over every defined variable, in an arbitrary order: each
        variable without a value whose terms have no unknown is summed and
        recorded. Every variable that was ready when the pass began is
        resolved by its end, unless an exception stops it. */
    method EvaluationPass() returns (pass: PassOutcome)
      requires Valid()
      modifies this`expression, this`result, this`rank
      ensures expression == old(expression)
      ensures Valid()
      ensures forall v :: v in old(result) ==> v in result && result[v] == old(result)[v]
      ensures pass.Progressed? ==> |result| > |old(result)|
      ensures pass.Stalled? ==> result == old(result)
      ensures pass.Stalled? ==>
        forall v :: v in expression && v !in result ==> UnknownCount(expression[v], result.Keys) > 0
      ensures pass.Raised? ==>
        exists v :: v in expression && v !in result && UnknownCount(expression[v], result.Keys) == 0
          && Evaluate(expression[v], result) == Err(pass.error)
      ensures pass.Raised? ==> !pass.error.NoProgress?
      ensures pass.Raised? && NamesOnly(expression) ==> !WellFormed(expression)
      ensures !pass.Raised? ==>
        forall v ::
          (v in expression && v !in old(result) && UnknownCount(expression[v], old(result).Keys) == 0) ==>
          v in result
    {
      var todo := expression.Keys;
      var progress := false;
      while todo != {}
        invariant todo <= expression.Keys
        invariant expression == old(expression)
        invariant Valid()
        invariant forall v :: v in old(result) ==> v in result && result[v] == old(result)[v]
        invariant !progress ==> result == old(result)
        invariant progress ==> |result| > |old(result)|
        invariant !progress ==> forall v :: v in expression && v !in todo && v !in result ==>
          UnknownCount(expression[v], result.Keys) > 0
        invariant forall v ::
          (v in expression && v !in todo && v !in old(result) && UnknownCount(expression[v], old(result).Keys) == 0) ==>
          v in result
        decreases |todo|
      {
        var k :| k in todo;
        todo := todo - {k};
        if k !in result {
          if UnknownCount(expression[k], old(result).Keys) == 0 {
            ReadyStaysReady(expression[k], old(result).Keys, result.Keys);
          }
          var step := Visit(k);
          match step
          case Raised(_) =>
            return step;
          case Stalled =>
          case Progressed =>
            progress := true;
        }
      }
      pass := if progress then Progressed else Stalled;
    }

    /** The visit of one variable without a value: when its right-hand side
        has no unknown, it is summed and the sum recorded. */
    method Visit(k: string) returns (step: PassOutcome)
      requires Valid() && k in expression && k !in result
      modifies this`expression, this`result, this`rank
      ensures expression == old(expression)
      ensures Valid()
      ensures step.Stalled? <==> UnknownCount(expression[k], old(result).Keys) > 0
      ensures !step.Progressed? ==> result == old(result)
      ensures step.Progressed? ==> k in result && result == old(result)[k := result[k]]
      ensures step.Progressed? ==> Evaluate(expression[k], old(result)) == Ok(result[k])
      ensures step.Raised? ==>
        && Evaluate(expression[k], result) == Err(step.error)
        && !step.error.NoProgress?
        && (NamesOnly(expression) ==> !WellFormed(expression))
    {
      var n := CheckUnknownsNum(expression[k]);
      if n != 0 {
        return Stalled;
      }
      ghost var before := result;
      var value := AddResult(k);
      if value.Err? {
        SumTermsFailure(Terms(expression[k]), result);
        if NamesOnly(expression) {
          ReadyEvaluates(expression, result, k);
        }
        return Raised(value.error);
      }
      if NamesOnly(expression) {
        ResolveStep(expression, before, rank, k, value.value);
      }
      rank := rank[k := |before|];
      step := Progressed;
    }
  }

  /** A subset is no larger, and is the whole set when it is as large. */
  lemma KeysCard(a: set<string>, b: set<string>)
    requires a <= b
    ensures |a| <= |b|
    ensures |a| == |b| ==> a == b
    ensures |a| < |b| ==> exists v :: v in b && v !in a
  {
    assert b == a + (b - a);
    assert a * (b - a) == {};
    if |a| == |b| {
      assert |b - a| == 0;
    }
  }
}
