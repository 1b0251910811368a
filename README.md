# Equation evaluator, modelled in Dafny

The modelled program, `eqn_eval` (source/equation_evaluator.cc), reads lines
of the form `name = term + term + …`. It resolves every variable to an
unsigned 32-bit value by repeated passes. Each term is a number or a
reference to another variable. The evaluator keeps two tables:

- `expression`: each name with its right-hand side, spaces removed;
- `result`: each variable resolved so far, with its `uint32_t` value.

Four operations work on these tables:

- `build_expression` reads one line into `expression`;
- `check_unknowns_num` counts the terms of a right-hand side that name a
  variable with no value yet;
- `add_result` sums a right-hand side and records the sum;
- `run_evaluation` repeats passes over `expression` until every variable
  has a value.

The project has three modules.

- `Text` (text.dfy) holds character classes, space removal, letter
  extraction, splitting on a separator and joining again, and `std::stoi`.
- `Equations` (equations.dfy) defines what the tables mean:
  - `LineName`/`LineRhs` say what a line defines, and `LoadAll` what a
    file of lines defines;
  - `Terms` gives the terms of a right-hand side and `UnknownCount` its
    unknowns;
  - `TermValue`, `SumTerms` and `Evaluate` give the values;
  - `ScanTo` is the state of `add_result`'s character loop;
  - `Partial`, `IsSolution`, `Closed`, `Acyclic`, `WellFormed` and
    `Solvable` describe resolution.
- `Evaluator` (evaluator.dfy) holds the class `EquationEvaluator`. Its
  fields are the two maps, with a ghost `rank`: the order in which
  variables were resolved. Each source function is a method with the
  source's loop. Each method is proved against the functions of
  `Equations`, and the source's promises are lemmas about those
  functions.

The model follows what the code does, including where that differs from
what the program evidently intends (unsigned decimal terms, one `=` per
line, and an error for anything else):

- A line with no `=`, a blank line among them, is stored under the empty
  name; it is not rejected. Such a definition makes `NamesOnly` false, and
  with it every guarantee stated only for proper names.
- `std::stoi` accepts a sign, leading white space other than the space
  character, and trailing text (`12ab` is 12).
- A middle empty term (`1++2`) makes `std::stoi` throw, unless the empty
  name already has a value: that value is then added.
- A final empty term (`1+`) is never converted.
- Line order matters when a name is defined twice: the last line wins.

## Model

| member | source | states |
|---|---|---|
| Evaluator.EquationEvaluator.constructor | source/equation_evaluator.cc:32-41 | reading the lines in order gives `LoadAll(lines)`, no values and a valid state |
| Evaluator.EquationEvaluator.BuildExpression | source/equation_evaluator.cc:45-68 | exactly one entry is written: `LineName(line)` becomes `LineRhs(line)`, overwriting an earlier definition; every other entry is unchanged |
| Evaluator.EquationEvaluator.CheckUnknownsNum | source/equation_evaluator.cc:98-123 | returns the number of terms, with multiplicity, whose letters are non-empty and not a key of `result`; this is at most the number of terms and 0 for an empty right-hand side; nothing changes |
| Evaluator.EquationEvaluator.AddResult | source/equation_evaluator.cc:127-157 | the value is `Evaluate` of the right-hand side against the old values; on success exactly the key `name` is written, on an exception nothing is; a name with no definition gets an empty one |
| Evaluator.EquationEvaluator.Visit | source/equation_evaluator.cc:81-87 | a variable with unknowns is skipped, changing nothing; otherwise it is summed against the values before the visit, and exactly that sum is recorded under it, or the exception is reported and nothing changes; the state stays valid |
| Evaluator.EquationEvaluator.EvaluationPass | source/equation_evaluator.cc:78-89 | one pass in arbitrary order keeps every earlier value. Unless an exception stops it, every variable that was ready when it began (no unknowns) has a value at its end. It ends in one of three ways. It progresses, and `result` grows. It stalls, changing nothing; every unresolved variable then still has an unknown. Or it stops at a `std::stoi` exception of a variable with no unknowns; with proper names, some term is then neither a name nor a number |
| Evaluator.EquationEvaluator.RunEvaluation | source/equation_evaluator.cc:72-93 | values are write-once and only defined variables get one. Success means every defined variable has a value. A stall reports the pending variables, each with an unknown. With proper names, success happens exactly when the definitions are solvable, and the result is then the only solution |
| Text.StripSpaces | source/equation_evaluator.cc:53-59 | the stripped string contains no space |
| Text.StripSpacesShape | source/equation_evaluator.cc:53-59 | stripping adds no character and leaves a space-free string unchanged |
| Text.StripSpacesSnoc | source/equation_evaluator.cc:56-59 | one more character is appended unless it is a space |
| Text.LettersShape | source/equation_evaluator.cc:106-109 | the kept characters are letters of the input, and a string of letters is kept whole |
| Text.LettersSnoc | source/equation_evaluator.cc:106-109 | one more character is appended exactly when it is a letter |
| Text.Split | source/equation_evaluator.cc:136-153 | splitting always yields at least one piece |
| Text.SplitSnoc | source/equation_evaluator.cc:136-153 | a separator starts a new empty piece; any other character extends the last piece |
| Text.SplitPieces | source/equation_evaluator.cc:136-153 | no piece contains the separator |
| Text.JoinSplit | source/equation_evaluator.cc:136-153 | joining the pieces with the separator gives the string back |
| Text.SplitJoin | source/equation_evaluator.cc:136-153 | separator-free pieces are recovered from their join |
| Text.SplitAtSep | source/equation_evaluator.cc:53-65 | a separator cuts the string into two independently split halves |
| Text.SplitWithoutSep | source/equation_evaluator.cc:53-65 | a string without the separator is one piece |
| Text.DigitPrefixDigits | source/equation_evaluator.cc:150 | the digits `std::stoi` reads are decimal digits |
| Text.DecimalValueNonNegative | source/equation_evaluator.cc:150 | a string of digits spells a non-negative number |
| Text.StoI | source/equation_evaluator.cc:150 | a converted value lies within the 32-bit `int` range |
| Text.StoIOfDigitStart | source/equation_evaluator.cc:150 | a token starting with a digit converts to the value of its leading digits, or is out of range |
| Text.StoIOfNumeral | source/equation_evaluator.cc:150 | a numeral converts to its decimal value when it fits in `int`, else it is out of range |
| Text.StoIIgnoresSuffix | source/equation_evaluator.cc:150 | text after the leading digits does not change the conversion |
| Text.DigitPrefixAppend | source/equation_evaluator.cc:150 | reading digits stops at the first non-digit |
| Text.StoIOfWord | source/equation_evaluator.cc:150 | a token starting with a letter is not a number |
| Text.DigitPrefixOfNumeral | source/equation_evaluator.cc:150 | all the digits of a numeral are read |
| Equations.LineName | source/equation_evaluator.cc:50-67 | the stored name contains no space and no `=` |
| Equations.LineRhs | source/equation_evaluator.cc:50-67 | the stored right-hand side contains no space and no `=` |
| Equations.LineWithOneEquals | source/equation_evaluator.cc:50-67 | a line `l=r` with one `=` defines `l` as `r`, both with spaces removed |
| Equations.LineWithoutEquals | source/equation_evaluator.cc:48 | a line without `=` defines the empty name as the whole line, spaces removed |
| Equations.LineNameSnoc | source/equation_evaluator.cc:53-65 | an `=` makes the text read so far the name; any other character leaves the name alone |
| Equations.LineRhsSnoc | source/equation_evaluator.cc:53-65 | an `=` empties the buffer, a space is dropped, and any other character is appended |
| Equations.LoadAllKeyLine | source/equation_evaluator.cc:37-40 | every defined name is the name of some line |
| Equations.LoadAllHasLine | source/equation_evaluator.cc:37-40 | every line's name is defined |
| Equations.LoadAllLastWins | source/equation_evaluator.cc:37-40 | a name is defined by the last line that names it |
| Equations.SplitByPieces | source/equation_evaluator.cc:136-153 | the `+`-separated pieces are the completed pieces followed by the current one |
| Equations.TermsAsSplit | source/equation_evaluator.cc:133-154 | the terms `add_result` converts are the `+`-separated pieces, except that a final empty piece is not a term |
| Equations.PiecesSnoc | source/equation_evaluator.cc:136-141 | a `+` completes the current piece; any other character extends it |
| Equations.TermsEndLast | source/equation_evaluator.cc:141 | the last character ends the last term |
| Equations.PiecesAppend | source/equation_evaluator.cc:136-152 | after a `+`, the pieces of the rest are those of a fresh right-hand side |
| Equations.TermsSplitAt | source/equation_evaluator.cc:136-152 | after a `+`, the terms are the completed pieces followed by the terms of the rest |
| Equations.TermsShape | source/equation_evaluator.cc:136-153 | no term contains `+`, and only the empty right-hand side has no terms |
| Equations.TermsAfterPlus | source/equation_evaluator.cc:136-153 | after the `+` at index `i`, the terms are the pieces before it followed by the terms after it |
| Equations.CountUnknowns | source/equation_evaluator.cc:111-118 | the count is at most the number of terms |
| Equations.CountUnknownsSnoc | source/equation_evaluator.cc:111-118 | one more term adds one exactly when it is unknown |
| Equations.ReadyStaysReady | source/equation_evaluator.cc:84 | a right-hand side with no unknowns keeps none as more variables get values, so a variable ready at the start of a pass is still ready when visited |
| Equations.CountUnknownsZero | source/equation_evaluator.cc:84 | the count is zero exactly when no term is unknown |
| Equations.CountUnknownsAppend | source/equation_evaluator.cc:103-121 | the count of a concatenation is the sum of the counts |
| Equations.CountStep | source/equation_evaluator.cc:106-120 | one character extends the current letters or, at a `+`, counts the piece it ends |
| Equations.CountLast | source/equation_evaluator.cc:111 | the last character counts the last term |
| Equations.EndedLetters | source/equation_evaluator.cc:106-109 | the letters of the ended piece are the current letters plus `c` when `c` is a letter |
| Equations.TermValueOfNumeral | source/equation_evaluator.cc:144-151 | a numeral that is not a key and fits in `int` contributes its decimal value |
| Equations.TermValueOfWord | source/equation_evaluator.cc:150 | a word that is not a key makes `std::stoi` throw `invalid_argument` |
| Equations.SumTermsOk | source/equation_evaluator.cc:141-153 | the sum has a value exactly when every term has one |
| Equations.SumTermsOkValued | source/equation_evaluator.cc:141-153 | a sum with a value has a value for every term |
| Equations.SumTermsErrUnvalued | source/equation_evaluator.cc:150 | a failed sum has a term whose conversion throws |
| Equations.SumTermsFailure | source/equation_evaluator.cc:150 | a sum fails only with one of the two `std::stoi` exceptions |
| Equations.SumTermsSnoc | source/equation_evaluator.cc:141-153 | one more term adds its value to the running sum |
| Equations.SumTermsFailedPrefix | source/equation_evaluator.cc:150 | once a prefix has thrown, later terms do not matter |
| Equations.SumTermsWraps | source/equation_evaluator.cc:131-151 | when every term has a value, the `uint32_t` sum is the exact integer sum reduced modulo 2^32 |
| Equations.TermValueWraps | source/equation_evaluator.cc:144-151 | a term's value is the stored value or the `std::stoi` result, reduced modulo 2^32 |
| Equations.AddWraps | source/equation_evaluator.cc:146-150 | adding reduced values reduces the exact sum |
| Equations.SumTermsAgree | source/equation_evaluator.cc:144-150 | two tables that agree on every term give the same sum |
| Equations.EvaluateEmpty | source/equation_evaluator.cc:131-156 | an empty right-hand side sums to 0 |
| Equations.ScanToState | source/equation_evaluator.cc:133-154 | mid-loop, the running sum is the sum of the completed pieces, and the buffer is the current piece |
| Equations.ScanStep | source/equation_evaluator.cc:141-152 | a `+` or the last character adds the ended piece's value to the sum |
| Equations.EvaluateLast | source/equation_evaluator.cc:141-152 | a right-hand side's value is that of its completed pieces plus the piece its last character ends |
| Equations.EvaluateFailsBeforePlus | source/equation_evaluator.cc:150 | when the terms before a `+` throw, so does the whole right-hand side |
| Equations.ScanStopsAtPlus | source/equation_evaluator.cc:141-152 | a loop stopped by an exception at a `+` holds the exception of the whole sum |
| Equations.ScanEndsAtLast | source/equation_evaluator.cc:141-154 | a loop that reads the last character holds the value of the whole sum |
| Equations.ScanToFinal | source/equation_evaluator.cc:133-154 | a loop that has stopped or finished holds `Evaluate` of the right-hand side |
| Equations.ReadyEvaluates | source/equation_evaluator.cc:84-87 | a variable with no unknown is summed without exception when every term is a name or a number |
| Equations.ReadyExists | source/equation_evaluator.cc:74-90 | closed, acyclic definitions always have an unresolved variable with no unknown |
| Equations.StuckIsUnsolvable | source/equation_evaluator.cc:74-90 | a pass with no progress proves the definitions have an undefined reference or a cycle |
| Equations.SumTermsNewKey | source/equation_evaluator.cc:156 | a new key that no term mentions changes no sum |
| Equations.ReadyNotSelfReferent | source/equation_evaluator.cc:84-87 | a variable resolved now does not refer to itself |
| Equations.ResolvedNotReferent | source/equation_evaluator.cc:81-87 | a resolved variable does not refer to an unresolved one |
| Equations.ResolveStep | source/equation_evaluator.cc:84-87 | recording a ready variable's sum keeps the evaluation partial |
| Equations.RankedAfterStep | source/equation_evaluator.cc:156 | the new variable takes the next rank, and only defined variables have values |
| Equations.AllResolvedAfterStep | source/equation_evaluator.cc:84-87 | every variable, old and new, still holds the sum of its terms over earlier variables |
| Equations.ResolvedKept | source/equation_evaluator.cc:156 | a new value leaves the earlier variables resolved |
| Equations.ReadyOrdered | source/equation_evaluator.cc:84-87 | the new variable's references all have smaller ranks |
| Equations.FullySolved | source/equation_evaluator.cc:74-90 | a partial evaluation covering every definition is a solution, is the only one, and its definitions are solvable |
| Equations.SolutionIsUnique | source/equation_evaluator.cc:74-90 | any other solution equals it, so the values do not depend on the visiting order |
| Equations.AgreeAt | source/equation_evaluator.cc:84-86 | any other solution agrees with it at each variable, by induction on the rank |

## Left out

- File and console I/O is not modelled: the `std::ifstream` read, `write_output` and `main`. The constructor takes the lines as a sequence.
- The widths of the `uint32_t` loop index and of the unknown counter are not modelled. They would matter only for strings of 2^32 characters or more.
- `std::isalpha` and `std::isspace` are taken in the "C" locale, on ASCII characters.
- The hashing of `std::unordered_map` is not modelled. A pass visits the variables in an arbitrary order, chosen afresh in each pass.
- `std::map`'s sorted order only matters for output, so it is not modelled.
- Exceptions become `Err` results, which end the run. `main`'s printing of the message is not modelled.
- RunEvaluation: a pass that resolves nothing returns `NoProgress` with the pending variables. The source's loop never exits in that case. This is deliberate.
- RunEvaluation: uniqueness and solvability are stated only when every defined name is a non-empty string of ASCII letters. With other names, `check_unknowns_num` looks up only the letter part, and the source can mis-evaluate or hang. The empty name that a blank line or a line without `=` defines is such a name.
- Evaluator.EquationEvaluator.Visit: requires a defined variable without a value, which is the only way the source's pass reaches that code.
