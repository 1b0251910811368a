/** Character classes and the string scanning the evaluator is built from.
    Every scanner here consumes its input from the left, one character at a
    time, so each is defined by recursion on the last character: that is the
    shape of the loops that use them. */
module Text {
  import opened Seqs

  /** `std::isalpha` in the "C" locale. */
  predicate IsAlpha(c: char) { 'A' <= c <= 'Z' || 'a' <= c <= 'z' }

  predicate IsDigit(c: char) { '0' as int <= c as int <= '9' as int }

  /** `std::isspace` in the "C" locale: space, tab, line feed, vertical tab,
      form feed and carriage return (U+0009 to U+000D). */
  predicate IsSpace(c: char) { c == ' ' || '\t' <= c <= '\r' }

  /** A non-empty string of decimal digits. */
  predicate IsNumeral(s: string) { s != [] && forall c :: c in s ==> IsDigit(c) }

  /** The string with every space character (and only those) removed. */
  function StripSpaces(s: string): (r: string)
    ensures ' ' !in r
  {
    if s == [] then []
    else StripSpaces(s[..|s| - 1]) + (if s[|s| - 1] == ' ' then [] else [s[|s| - 1]])
  }

  /** Removing spaces adds no character, and changes nothing in a string
      without spaces. */
  lemma {:induction false} StripSpacesShape(s: string)
    ensures forall c :: c in StripSpaces(s) ==> c in s
    ensures ' ' !in s ==> StripSpaces(s) == s
  {
    if s != [] {
      var s' := s[..|s| - 1];
      assert s == s' + [s[|s| - 1]];
      StripSpacesShape(s');
    }
  }

  lemma StripSpacesSnoc(s: string, c: char)
    ensures StripSpaces(s + [c]) == StripSpaces(s) + (if c == ' ' then [] else [c])
  {
    SnocInit(s, c);
  }

  /** The alphabetic characters of `s`, in order. */
  function Letters(s: string): (letters: string)
  {
    if s == [] then []
    else Letters(s[..|s| - 1]) + (if IsAlpha(s[|s| - 1]) then [s[|s| - 1]] else [])
  }

  /** The letters are letters of `s`, and a string of letters is its own. */
  lemma {:induction false} LettersShape(s: string)
    ensures forall c :: c in Letters(s) ==> IsAlpha(c) && c in s
    ensures (forall c :: c in s ==> IsAlpha(c)) ==> Letters(s) == s
  {
    if s != [] {
      var s' := s[..|s| - 1];
      assert s == s' + [s[|s| - 1]];
      assert forall c :: c in s' ==> c in s;
      LettersShape(s');
    }
  }

  lemma LettersSnoc(s: string, c: char)
    ensures Letters(s + [c]) == Letters(s) + (if IsAlpha(c) then [c] else [])
  {
    SnocInit(s, c);
  }

  /** The pieces of `s` between occurrences of `sep`: always at least one
      piece, and an empty piece before a leading, after a trailing and
      between two adjacent separators. */
  function Split(s: string, sep: char): (parts: seq<string>)
    ensures |parts| >= 1
  {
    if s == [] then [[]]
    else
      var init := Split(s[..|s| - 1], sep);
      var c := s[|s| - 1];
      if c == sep then init + [[]]
      else init[..|init| - 1] + [init[|init| - 1] + [c]]
  }

  lemma SplitSnoc(s: string, c: char, sep: char)
    ensures Split(s + [c], sep) ==
      var p := Split(s, sep);
      if c == sep then p + [[]] else p[..|p| - 1] + [p[|p| - 1] + [c]]
  {
    SnocInit(s, c);
  }

  /** No piece contains the separator. */
  lemma {:induction false} SplitPieces(s: string, sep: char)
    ensures forall i :: 0 <= i < |Split(s, sep)| ==> sep !in Split(s, sep)[i]
  {
    if s != [] {
      var s' := s[..|s| - 1];
      SplitPieces(s', sep);
      var p := Split(s', sep);
      if s[|s| - 1] != sep {
        assert forall i :: 0 <= i < |p| - 1 ==> Split(s, sep)[i] == p[i];
      }
    }
  }

  /** The pieces glued back together with `sep` between them. */
  function Join(parts: seq<string>, sep: char): (joined: string)
    requires |parts| >= 1
  {
    if |parts| == 1 then parts[0]
    else Join(parts[..|parts| - 1], sep) + [sep] + parts[|parts| - 1]
  }

  /** Splitting loses nothing: joining the pieces gives the string back. */
  lemma {:induction false} JoinSplit(s: string, sep: char)
    ensures Join(Split(s, sep), sep) == s
  {
    if s != [] {
      var s', c := s[..|s| - 1], s[|s| - 1];
      SplitLast(s);
      SplitSnoc(s', c, sep);
      JoinSplit(s', sep);
      var p := Split(s', sep);
      if c == sep {
        SnocInit(p, []);
      } else if |p| > 1 {
        var q := p[..|p| - 1] + [p[|p| - 1] + [c]];
        assert q[..|q| - 1] == p[..|p| - 1];
      }
    }
  }

  /** A string without the separator is a single piece. */
  lemma {:induction false} SplitWithoutSep(s: string, sep: char)
    requires sep !in s
    ensures Split(s, sep) == [s]
  {
    if s != [] {
      var s' := s[..|s| - 1];
      assert s == s' + [s[|s| - 1]];
      SplitWithoutSep(s', sep);
      SplitSnoc(s', s[|s| - 1], sep);
    }
  }

  /** A separator cuts the string in two independently split halves. */
  lemma {:induction false} SplitAtSep(a: string, b: string, sep: char)
    ensures Split(a + [sep] + b, sep) == Split(a, sep) + Split(b, sep)
  {
    if b == [] {
      assert a + [sep] + b == a + [sep];
      SplitSnoc(a, sep, sep);
    } else {
      var b', c := b[..|b| - 1], b[|b| - 1];
      var x := a + [sep] + b';
      SplitLast(b);
      AppendSnoc(a + [sep], b', c);
      SplitAtSep(a, b', sep);
      SplitSnoc(x, c, sep);
      SplitSnoc(b', c, sep);
      SnocPieces(Split(a, sep), Split(b', sep), c, sep);
    }
  }

  /** The piece-level step of `SplitAtSep`: appending one character to the
      split of a concatenation only touches the second half. */
  lemma SnocPieces(pa: seq<string>, pb: seq<string>, c: char, sep: char)
    requires |pb| >= 1
    ensures var p := pa + pb;
      (if c == sep then p + [[]] else p[..|p| - 1] + [p[|p| - 1] + [c]]) ==
      pa + (if c == sep then pb + [[]] else pb[..|pb| - 1] + [pb[|pb| - 1] + [c]])
  {
    var p := pa + pb;
    if c == sep {
      assert p + [[]] == pa + (pb + [[]]);
    } else {
      var last := pb[|pb| - 1] + [c];
      assert p[|p| - 1] == pb[|pb| - 1];
      assert p[..|p| - 1] == pa + pb[..|pb| - 1];
      assert (pa + pb[..|pb| - 1]) + [last] == pa + (pb[..|pb| - 1] + [last]);
    }
  }

  /** Pieces free of the separator are recovered from their join. */
  lemma {:induction false} SplitJoin(parts: seq<string>, sep: char)
    requires |parts| >= 1
    requires forall i :: 0 <= i < |parts| ==> sep !in parts[i]
    ensures Split(Join(parts, sep), sep) == parts
  {
    if |parts| == 1 {
      SplitWithoutSep(parts[0], sep);
    } else {
      var init, last := parts[..|parts| - 1], parts[|parts| - 1];
      SplitJoin(init, sep);
      SplitAtSep(Join(init, sep), last, sep);
      SplitWithoutSep(last, sep);
      assert parts == init + [last];
    }
  }

  /** Leading `std::isspace` characters dropped. */
  function SkipSpaces(s: string): (rest: string)
  {
    if s != [] && IsSpace(s[0]) then SkipSpaces(s[1..]) else s
  }

  /** The longest prefix of `s` made of decimal digits. */
  function DigitPrefix(s: string): (digits: string)
  {
    if s != [] && IsDigit(s[0]) then [s[0]] + DigitPrefix(s[1..]) else []
  }

  lemma {:induction false} DigitPrefixDigits(s: string)
    ensures forall c :: c in DigitPrefix(s) ==> IsDigit(c)
  {
    if s != [] && IsDigit(s[0]) {
      DigitPrefixDigits(s[1..]);
    }
  }

  /** The number a string of decimal digits spells, most significant first. */
  function DecimalValue(digits: string): (value: int)
  {
    if digits == [] then 0
    else 10 * DecimalValue(digits[..|digits| - 1]) + (digits[|digits| - 1] as int - '0' as int)
  }

  lemma {:induction false} DecimalValueNonNegative(digits: string)
    requires forall c :: c in digits ==> IsDigit(c)
    ensures DecimalValue(digits) >= 0
  {
    if digits != [] {
      assert forall c :: c in digits[..|digits| - 1] ==> c in digits;
      DecimalValueNonNegative(digits[..|digits| - 1]);
      assert digits[|digits| - 1] in digits;
    }
  }

  const INT_MIN: int := -0x8000_0000
  const INT_MAX: int := 0x7FFF_FFFF

  /** What `std::stoi` does with a string: a value, or one of its two exceptions. */
  datatype Conversion = Converted(n: int) | NotANumber | OutOfIntRange

  /** `std::stoi(s)` in base 10 on a platform with a 32-bit `int`: leading
      white space is skipped, an optional sign is read, at least one digit
      must follow (else `std::invalid_argument`), reading stops at the first
      non-digit, and a value outside `int` is `std::out_of_range`. */
  function StoI(s: string): (r: Conversion)
    ensures r.Converted? ==> INT_MIN <= r.n <= INT_MAX
  {
    var t := SkipSpaces(s);
    var digits := DigitPrefix(SignStripped(t));
    if digits == [] then NotANumber
    else
      var magnitude := DecimalValue(digits);
      var n := if t[0] == '-' then -magnitude else magnitude;
      if n < INT_MIN || INT_MAX < n then OutOfIntRange else Converted(n)
  }

  /** `t` without its leading sign character, if it has one. */
  function SignStripped(t: string): (unsigned: string)
  {
    if t != [] && (t[0] == '-' || t[0] == '+') then t[1..] else t
  }

  lemma {:induction false} DigitPrefixOfNumeral(s: string)
    requires forall c :: c in s ==> IsDigit(c)
    ensures DigitPrefix(s) == s
  {
    if s != [] {
      assert forall c :: c in s[1..] ==> c in s;
      DigitPrefixOfNumeral(s[1..]);
      assert s == [s[0]] + s[1..];
    }
  }

  /** `std::stoi` on a string that starts with a digit: no space to skip and
      no sign, so the leading digits are the whole story. */
  lemma StoIOfDigitStart(s: string)
    requires s != [] && IsDigit(s[0])
    ensures StoI(s) == var m := DecimalValue(DigitPrefix(s));
      if m <= INT_MAX then Converted(m) else OutOfIntRange
  {
    assert SkipSpaces(s) == s;
    assert SignStripped(s) == s;
    DigitPrefixDigits(s);
    DecimalValueNonNegative(DigitPrefix(s));
  }

  /** A numeral converts to its decimal value when that fits in an `int`. */
  lemma StoIOfNumeral(s: string)
    requires IsNumeral(s)
    ensures StoI(s) == if DecimalValue(s) <= INT_MAX then Converted(DecimalValue(s)) else OutOfIntRange
  {
    assert s[0] in s;
    StoIOfDigitStart(s);
    DigitPrefixOfNumeral(s);
  }

  /** Reading stops at the first non-digit: a token such as `12ab` converts as `12`. */
  lemma StoIIgnoresSuffix(digits: string, rest: string)
    requires IsNumeral(digits)
    requires rest == [] || !IsDigit(rest[0])
    ensures StoI(digits + rest) == StoI(digits)
  {
    assert digits[0] in digits && (digits + rest)[0] == digits[0];
    StoIOfDigitStart(digits + rest);
    StoIOfDigitStart(digits);
    DigitPrefixOfNumeral(digits);
    DigitPrefixAppend(digits, rest);
  }

  lemma {:induction false} DigitPrefixAppend(digits: string, rest: string)
    requires forall c :: c in digits ==> IsDigit(c)
    requires rest == [] || !IsDigit(rest[0])
    ensures DigitPrefix(digits + rest) == digits
  {
    if digits != [] {
      assert forall c :: c in digits[1..] ==> c in digits;
      DigitPrefixAppend(digits[1..], rest);
      assert (digits + rest)[1..] == digits[1..] + rest;
      assert digits == [digits[0]] + digits[1..];
    }
  }

  /** A token that starts with a letter is not a number at all. */
  lemma StoIOfWord(s: string)
    requires s != [] && IsAlpha(s[0])
    ensures StoI(s) == NotANumber
  {
    assert SkipSpaces(s) == s;
    assert SignStripped(s) == s;
  }
}
