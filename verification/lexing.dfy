/** The lexer of src/lexer.rs: a character cursor that yields one token per
    call. The cursor state is an immutable value; every operation returns the
    advanced cursor alongside its result. */
module Lexing {
  import opened Wrappers

  /** The tokens of the language; numeric payloads are reals (the source uses f64). */
  datatype Token =
    | Number(value: real)
    | Identifier(name: string)
    | Plus
    | Minus
    | Divide
    | Multiply
    | Assign
    | LParen
    | RParen
    | Semi
    | EoF

  /** The eight single-character tokens. */
  predicate IsPlain(t: Token) {
    t.Plus? || t.Minus? || t.Divide? || t.Multiply? || t.Assign? || t.LParen? || t.RParen? || t.Semi?
  }

  // Character classes, restricted to ASCII.

  predicate IsNumeric(c: char) { '0' <= c <= '9' }

  predicate IsAlphabetic(c: char) { 'a' <= c <= 'z' || 'A' <= c <= 'Z' }

  predicate IsAlphanumeric(c: char) { IsAlphabetic(c) || IsNumeric(c) }

  /** Space and the control characters tab, line feed, vertical tab, form feed, carriage return. */
  predicate IsWhitespace(c: char) { c == ' ' || '\t' <= c <= '\r' }

  /** A character that may appear in a numeric literal. */
  predicate IsNumberChar(c: char) { IsNumeric(c) || c == '.' }

  /** A character that may start an identifier. */
  predicate IsIdentStart(c: char) { IsAlphabetic(c) || c == '_' }

  /** A character that may continue an identifier. */
  predicate IsIdentChar(c: char) { IsAlphanumeric(c) || c == '_' }

  /** `input.get(i)` */
  function Get(input: string, i: nat): Option<char> {
    if i < |input| then Some(input[i]) else None
  }

  /** Fatal lexer faults (the source panics). */
  datatype LexFault = MalformedNumber(at: nat) | MalformedIdentifier(at: nat)

  /** The lexer cursor; `current` caches the character at `position`. */
  datatype Lexer = Lexer(input: string, position: nat, current: Option<char>) {
    /** The representation invariant: the cursor never passes the end and
        `current` is the character under it, or `None` at the end. */
    predicate Valid() {
      position <= |input| && current == Get(input, position)
    }
  }

  /** The valid cursor over `input` at `position`. */
  function At(input: string, position: nat): (l: Lexer)
    requires position <= |input|
    ensures l.Valid() && l.input == input && l.position == position
  {
    Lexer(input, position, Get(input, position))
  }

  function New(input: string): (l: Lexer)
    ensures l.Valid() && l.input == input && l.position == 0
  {
    Lexer(input, 0, Get(input, 0))
  }

  /** Moves one character forward; reports whether it moved. */
  function Advance(l: Lexer): (r: (Lexer, bool))
    ensures r.0.input == l.input
    ensures r.1 <==> l.position < |l.input|
    ensures r.0.position == if r.1 then l.position + 1 else l.position
    ensures l.Valid() ==> r.0.Valid()
  {
    if l.position >= |l.input| then
      (l.(current := None), false)
    else
      (Lexer(l.input, l.position + 1, Get(l.input, l.position + 1)), true)
  }

  function SkipWhitespace(l: Lexer): (r: Lexer)
    requires l.Valid()
    ensures r.Valid() && r.input == l.input && l.position <= r.position
    ensures forall i :: l.position <= i < r.position ==> IsWhitespace(l.input[i])
    ensures r.current.None? || !IsWhitespace(r.current.value)
    decreases |l.input| - l.position
  {
    if l.current.Some? && IsWhitespace(l.current.value) then
      SkipWhitespace(Advance(l).0)
    else
      l
  }

  /** The number of dots in `s`. */
  function DotCount(s: string): nat {
    if |s| == 0 then 0 else (if s[0] == '.' then 1 else 0) + DotCount(s[1..])
  }

  lemma {:induction false} DotCountAppend(a: string, b: string)
    ensures DotCount(a + b) == DotCount(a) + DotCount(b)
  {
    if |a| > 0 {
      assert (a + b)[1..] == a[1..] + b;
      DotCountAppend(a[1..], b);
    } else {
      assert a + b == b;
    }
  }

  lemma {:induction false} DotCountZero(s: string)
    ensures DotCount(s) == 0 <==> '.' !in s
  {
    if |s| > 0 {
      DotCountZero(s[1..]);
      assert s == [s[0]] + s[1..];
    }
  }

  /** No two dots in `s`. */
  predicate AtMostOneDot(s: string) {
    DotCount(s) <= 1
  }

  /** `input[start..end]` is a longest numeric run starting at `start`: digits
      with at most one dot, stopped by the end of input, by a character that
      cannot be in a number, or by a second dot (which stays unconsumed). */
  predicate MaximalNumberRun(input: string, start: nat, end: nat)
  {
    && start <= end <= |input|
    && (forall i :: start <= i < end ==> IsNumberChar(input[i]))
    && AtMostOneDot(input[start..end])
    && (end == |input| || !IsNumberChar(input[end]) || (input[end] == '.' && DotCount(input[start..end]) == 1))
  }

  /** `input[start..end]` is a longest identifier starting at `start`. */
  predicate MaximalIdentifierRun(input: string, start: nat, end: nat)
  {
    && start < end <= |input|
    && IsIdentStart(input[start])
    && (forall i :: start < i < end ==> IsIdentChar(input[i]))
    && (end == |input| || !IsIdentChar(input[end]))
  }

  /** Taking the character at `i` onto `text` and then the rest of a run. */
  lemma ExtendRun(text: string, input: string, i: nat, e: nat)
    requires i <= e <= |input|
    ensures text + input[i..i] == text
    ensures i < e ==> (text + [input[i]]) + input[i + 1..e] == text + input[i..e]
  {
    if i < e {
      assert input[i..e] == [input[i]] + input[i + 1..e];
    }
  }

  /** Where the scan of `read_number` that starts at index `i` stops;
      `seenDot` records whether a dot was already taken. */
  function NumberRunEnd(input: string, i: nat, seenDot: bool): (e: nat)
    requires i <= |input|
    ensures i <= e <= |input|
    decreases |input| - i
  {
    if i < |input| && IsNumeric(input[i]) then NumberRunEnd(input, i + 1, seenDot)
    else if i < |input| && input[i] == '.' && !seenDot then NumberRunEnd(input, i + 1, true)
    else i
  }

  /** The scan stops exactly at the end of a maximal numeric run. */
  lemma {:induction false} NumberRunEndIsMaximal(input: string, i: nat, seenDot: bool)
    requires i <= |input|
    ensures var e := NumberRunEnd(input, i, seenDot);
      && (forall k :: i <= k < e ==> IsNumberChar(input[k]))
      && DotCount(input[i..e]) + (if seenDot then 1 else 0) <= 1
      && (e == |input| || !IsNumberChar(input[e])
          || (input[e] == '.' && DotCount(input[i..e]) + (if seenDot then 1 else 0) == 1))
    decreases |input| - i
  {
    var e := NumberRunEnd(input, i, seenDot);
    if i < |input| && IsNumberChar(input[i]) && !(input[i] == '.' && seenDot) {
      NumberRunEndIsMaximal(input, i + 1, seenDot || input[i] == '.');
      assert input[i..e][1..] == input[i + 1..e];
    } else {
      assert input[i..e] == [];
    }
  }

  /** The loop of `read_number`: `text` is the run read so far and `seenDot`
      whether it holds a dot. */
  function ReadNumberLoop(l: Lexer, text: string, seenDot: bool): (r: (string, Lexer))
    requires l.Valid()
    ensures var e := NumberRunEnd(l.input, l.position, seenDot);
      r == (text + l.input[l.position..e], At(l.input, e))
    decreases |l.input| - l.position
  {
    if l.current.Some? && IsNumeric(l.current.value) then
      var r := ReadNumberLoop(Advance(l).0, text + [l.current.value], seenDot);
      ExtendRun(text, l.input, l.position, r.1.position);
      r
    else if l.current.Some? && l.current.value == '.' then
      if seenDot then
        ExtendRun(text, l.input, l.position, l.position);
        (text, l)
      else
        var r := ReadNumberLoop(Advance(l).0, text + ['.'], true);
        ExtendRun(text, l.input, l.position, r.1.position);
        r
    else
      ExtendRun(text, l.input, l.position, l.position);
      (text, l)
  }

  /** `read_number`: reads a numeric run and converts it; a run that does not
      parse (a lone dot) yields 0.0; an empty run is a fault. */
  function ReadNumber(l: Lexer): (r: Result<(real, Lexer), LexFault>)
    requires l.Valid()
    ensures r.Ok? <==> l.current.Some? && IsNumberChar(l.current.value)
    ensures r.Ok? ==> var l' := r.value.1;
      && l'.Valid() && l'.input == l.input
      && MaximalNumberRun(l.input, l.position, l'.position)
      && l.position < l'.position
      && r.value.0 == ParseFloat(l.input[l.position..l'.position]).GetOr(0.0)
  {
    var (text, l') := ReadNumberLoop(l, "", false);
    NumberRunEndIsMaximal(l.input, l.position, false);
    assert text == l.input[l.position..l'.position];
    if |text| == 0 then
      Err(MalformedNumber(l'.position))
    else
      Ok((ParseFloat(text).GetOr(0.0), l'))
  }

  /** Where the scan of `read_identifier` that starts at index `i` stops;
      `first` holds before the first character is taken. */
  function IdentifierRunEnd(input: string, i: nat, first: bool): (e: nat)
    requires i <= |input|
    ensures i <= e <= |input|
    decreases |input| - i
  {
    if i < |input| && (IsAlphabetic(input[i]) || (IsNumeric(input[i]) && !first) || input[i] == '_') then
      IdentifierRunEnd(input, i + 1, false)
    else i
  }

  /** The scan takes an identifier start and then a maximal run of identifier
      characters; it takes nothing when the first character cannot start one. */
  lemma {:induction false} IdentifierRunEndIsMaximal(input: string, i: nat, first: bool)
    requires i <= |input|
    ensures var e := IdentifierRunEnd(input, i, first);
      && (forall k :: i <= k < e ==> IsIdentChar(input[k]))
      && (first && i < e ==> IsIdentStart(input[i]))
      && (first && i == e ==> i == |input| || !IsIdentStart(input[i]))
      && (!first || i < e ==> e == |input| || !IsIdentChar(input[e]))
    decreases |input| - i
  {
    if i < |input| && (IsAlphabetic(input[i]) || (IsNumeric(input[i]) && !first) || input[i] == '_') {
      IdentifierRunEndIsMaximal(input, i + 1, false);
    }
  }

  /** The loop of `read_identifier`: `text` is the identifier read so far. */
  function ReadIdentifierLoop(l: Lexer, text: string, first: bool): (r: (string, Lexer))
    requires l.Valid()
    ensures var e := IdentifierRunEnd(l.input, l.position, first);
      r == (text + l.input[l.position..e], At(l.input, e))
    decreases |l.input| - l.position
  {
    var valid := match l.current
      case Some(x) => IsAlphabetic(x) || (IsNumeric(x) && !first) || x == '_'
      case None => false;
    if valid then
      var r := ReadIdentifierLoop(Advance(l).0, text + [l.current.value], false);
      ExtendRun(text, l.input, l.position, r.1.position);
      r
    else
      ExtendRun(text, l.input, l.position, l.position);
      (text, l)
  }

  /** `read_identifier`: reads a maximal identifier; an empty run is a fault. */
  function ReadIdentifier(l: Lexer): (r: Result<(string, Lexer), LexFault>)
    requires l.Valid()
    ensures r.Ok? <==> l.current.Some? && IsIdentStart(l.current.value)
    ensures r.Ok? ==> var l' := r.value.1;
      && l'.Valid() && l'.input == l.input
      && MaximalIdentifierRun(l.input, l.position, l'.position)
      && r.value.0 == l.input[l.position..l'.position]
  {
    var (text, l') := ReadIdentifierLoop(l, "", true);
    IdentifierRunEndIsMaximal(l.input, l.position, true);
    if |text| == 0 then
      Err(MalformedIdentifier(l'.position))
    else
      Ok((text, l'))
  }

  /** `match_plain_token`: the table of single-character tokens. */
  function MatchPlainToken(c: char): (r: Option<Token>)
    ensures r.Some? <==> c in "+-*/=();"
    ensures r.Some? ==> IsPlain(r.value) && PlainChar(r.value) == c
  {
    match c
    case '+' => Some(Plus)
    case '-' => Some(Minus)
    case '*' => Some(Multiply)
    case '/' => Some(Divide)
    case '=' => Some(Assign)
    case '(' => Some(LParen)
    case ')' => Some(RParen)
    case ';' => Some(Semi)
    case _ => None
  }

  /** The character of a single-character token: the inverse table. */
  function PlainChar(t: Token): char
    requires IsPlain(t)
  {
    match t
    case Plus => '+'
    case Minus => '-'
    case Multiply => '*'
    case Divide => '/'
    case Assign => '='
    case LParen => '('
    case RParen => ')'
    case Semi => ';'
  }

  /** `next_token`. The dispatch guards make the two malformed-run faults
      unreachable, so the result is always `Ok`. By the first character after
      the whitespace, it yields one of the eight single-character tokens (one
      character consumed), a number over a maximal numeric run, an
      identifier over a maximal identifier run, or else `EoF` with nothing
      consumed. */
  function NextToken(l: Lexer): (r: Result<(Token, Lexer), LexFault>)
    requires l.Valid()
    ensures r.Ok?
    ensures r.value.1.Valid() && r.value.1.input == l.input && l.position <= r.value.1.position
    ensures var s, t, l' := SkipWhitespace(l), r.value.0, r.value.1;
      && (s.current.Some? && MatchPlainToken(s.current.value).Some? ==>
            t == MatchPlainToken(s.current.value).value && l'.position == s.position + 1)
      && (s.current.Some? && IsNumberChar(s.current.value) ==>
            && MaximalNumberRun(l.input, s.position, l'.position) && s.position < l'.position
            && t == Number(ParseFloat(l.input[s.position..l'.position]).GetOr(0.0)))
      && (s.current.Some? && IsIdentStart(s.current.value) ==>
            && MaximalIdentifierRun(l.input, s.position, l'.position)
            && t == Identifier(l.input[s.position..l'.position]))
      && (s.current.None? || !(s.current.value in "+-*/=();" || IsNumberChar(s.current.value) || IsIdentStart(s.current.value)) ==>
            t == EoF && l' == s)
  {
    var s := SkipWhitespace(l);
    match s.current
    case Some(x) =>
      if MatchPlainToken(x).Some? then
        Ok((MatchPlainToken(x).value, Advance(s).0))
      else if IsNumeric(x) || x == '.' then
        match ReadNumber(s)
        case Ok((v, l')) => Ok((Number(v), l'))
        case Err(e) => Err(e)
      else if IsAlphanumeric(x) || x == '_' then
        match ReadIdentifier(s)
        case Ok((name, l')) => Ok((Identifier(name), l'))
        case Err(e) => Err(e)
      else
        Ok((EoF, s))
    case None => Ok((EoF, s))
  }

  /** The tokens a lexer yields from `l` up to and including the first `EoF`. */
  function TokensFrom(l: Lexer): (r: seq<Token>)
    requires l.Valid()
    ensures |r| > 0 && r[|r| - 1] == EoF
    ensures forall i :: 0 <= i < |r| - 1 ==> r[i] != EoF
    decreases |l.input| - l.position
  {
    var (t, l') := NextToken(l).value;
    if t == EoF then [EoF]
    else
      NonEoFTokenConsumes(l);
      [t] + TokensFrom(l')
  }

  /** The whole token stream of `input`, as the parser pulls it. */
  function Tokenize(input: string): (r: seq<Token>)
    ensures |r| > 0 && r[|r| - 1] == EoF
  {
    TokensFrom(New(input))
  }

  // ---------------------------------------------------------------------------
  // Numeric literal conversion (`str::parse::<f64>` on the runs `read_number` builds)

  function DigitValue(c: char): nat
    requires IsNumeric(c)
  {
    (c as int - '0' as int) as nat
  }

  /** The decimal value of a string of digits (0 for the empty string). */
  function DigitsValue(s: string): nat
    requires forall i :: 0 <= i < |s| ==> IsNumeric(s[i])
  {
    if |s| == 0 then 0 else 10 * DigitsValue(s[..|s| - 1]) + DigitValue(s[|s| - 1])
  }

  function Pow10(n: nat): (r: nat)
    ensures r > 0
  {
    if n == 0 then 1 else 10 * Pow10(n - 1)
  }

  /** Index of the first occurrence of `c` in `s`. */
  function IndexOf(s: string, c: char): (k: nat)
    requires c in s
    ensures k < |s| && s[k] == c && c !in s[..k]
  {
    if s[0] == c then 0 else 1 + IndexOf(s[1..], c)
  }

  /** A decimal literal: digits and at most one dot, with at least one digit
      (`"42"`, `"3.14"`, `".4"`, `"4."`, but not `"."`). */
  predicate IsDecimalLiteral(s: string) {
    && (forall i :: 0 <= i < |s| ==> IsNumberChar(s[i]))
    && AtMostOneDot(s)
    && exists i :: 0 <= i < |s| && IsNumeric(s[i])
  }

  /** The exact value of a decimal literal. */
  function DecimalValue(s: string): real
    requires IsDecimalLiteral(s)
  {
    if '.' !in s then
      DigitsValue(s) as real
    else
      var k := IndexOf(s, '.');
      var whole, fraction := s[..k], s[k + 1..];
      assert s == whole + ['.'] + fraction;
      DotCountAppend(whole + ['.'], fraction);
      DotCountAppend(whole, ['.']);
      DotCountZero(fraction);
      DigitsValue(whole) as real + DigitsValue(fraction) as real / Pow10(|fraction|) as real
  }

  /** `str::parse::<f64>` on the runs `read_number` builds: the exact value of
      a decimal literal, `None` (a parse error) otherwise, in particular for a
      lone `"."`. IEEE rounding is not modelled. */
  function ParseFloat(s: string): (r: Option<real>)
    ensures r.Some? <==> IsDecimalLiteral(s)
  {
    if IsDecimalLiteral(s) then Some(DecimalValue(s)) else None
  }

  // ---------------------------------------------------------------------------
  // Properties

  /** The single-character table and its inverse agree in both directions. */
  lemma PlainTokenTableIsBijective(c: char, t: Token)
    ensures MatchPlainToken(c) == Some(t) <==> IsPlain(t) && PlainChar(t) == c
  {
  }

  lemma SkipWhitespaceIdempotent(l: Lexer)
    requires l.Valid()
    ensures SkipWhitespace(SkipWhitespace(l)) == SkipWhitespace(l)
  {
  }

  /** Once the lexer has produced `EoF` it stays put and keeps producing `EoF`. */
  lemma EoFIsSticky(l: Lexer)
    requires l.Valid()
    requires NextToken(l).value.0 == EoF
    ensures NextToken(NextToken(l).value.1).value == (EoF, NextToken(l).value.1)
  {
    SkipWhitespaceIdempotent(l);
  }

  /** From a given start there is only one maximal numeric run: a shorter
      one would stop in front of a number character, which can only be a
      second dot, and the longer run cannot contain two dots. */
  lemma {:induction false} MaximalNumberRunIsUnique(input: string, start: nat, e1: nat, e2: nat)
    requires MaximalNumberRun(input, start, e1) && MaximalNumberRun(input, start, e2)
    ensures e1 == e2
  {
    if e1 != e2 {
      var lo, hi := if e1 < e2 then e1 else e2, if e1 < e2 then e2 else e1;
      assert IsNumberChar(input[lo]);
      assert input[start..hi] == input[start..lo] + [input[lo]] + input[lo + 1..hi];
      DotCountAppend(input[start..lo] + [input[lo]], input[lo + 1..hi]);
      DotCountAppend(input[start..lo], [input[lo]]);
    }
  }

  /** Every token other than `EoF` consumes at least one character. */
  lemma NonEoFTokenConsumes(l: Lexer)
    requires l.Valid()
    requires NextToken(l).value.0 != EoF
    ensures NextToken(l).value.1.position > l.position
  {
  }
}
