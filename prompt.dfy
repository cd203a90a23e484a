/** The yes/no confirmation prompt: check the default answer, then read lines until one
    of them, lower-cased (or the default when the line is empty), is `yes`, `y`, `no`
    or `n`. The standard input is the sequence of lines a user would type. */
module Prompt {

  datatype Option<T> = None | Some(value: T)

  /** Why the prompt gives no answer: the default is neither `y` nor `n`
      (`ValueError`), or the input ended before a valid answer (`EOFError`). */
  datatype Error = InvalidDefault | EndOfInput

  datatype Result<T> = Ok(value: T) | Err(error: Error)

  /** `str.lower` on one character, for the ASCII letters. No other character lowers
      to one of the letters of `yes`, `y`, `no` or `n`, so keeping the rest as they are
      decides every comparison below exactly as Python does. */
  function LowerChar(c: char): (l: char)
    ensures 'A' <= c <= 'Z' ==> 'a' <= l <= 'z' && l as int - c as int == 32
    ensures !('A' <= c <= 'Z') ==> l == c
  {
    if 'A' <= c <= 'Z' then (c as int + 32) as char else c
  }

  /** `str.lower` on a whole string, character by character. */
  function Lower(s: string): (r: string)
    ensures |r| == |s|
    ensures forall i :: 0 <= i < |r| ==> !('A' <= r[i] <= 'Z')
    ensures forall i :: 0 <= i < |s| && !('A' <= s[i] <= 'Z') ==> r[i] == s[i]
  {
    seq(|s|, i requires 0 <= i < |s| => LowerChar(s[i]))
  }

  /** Lower-casing twice is lower-casing once. */
  lemma LowerIdempotent(s: string)
    ensures Lower(Lower(s)) == Lower(s)
  {
    forall i | 0 <= i < |s|
      ensures Lower(Lower(s))[i] == Lower(s)[i]
    {
    }
  }

  /** The `valid` table: what each accepted lower-case answer means. */
  function Answer(choice: string): (a: Option<bool>)
    ensures a == Some(true) <==> choice == "yes" || choice == "y"
    ensures a == Some(false) <==> choice == "no" || choice == "n"
  {
    if choice == "yes" || choice == "y" then Some(true)
    else if choice == "no" || choice == "n" then Some(false)
    else None
  }

  /** The default is accepted when it lower-cases to `y` or `n`. */
  predicate ValidDefault(default: string): (r: bool)
    ensures r <==> default == "y" || default == "Y" || default == "n" || default == "N"
  {
    Lower(default) == "y" || Lower(default) == "n"
  }

  /** What one typed line answers: the line lower-cased, or the default lower-cased
      when the line is empty, looked up in the `valid` table. */
  function Interpret(line: string, default: string): (r: Option<bool>)
    ensures line == [] && ValidDefault(default) ==> r == Some(Lower(default) == "y")
    ensures line != [] ==> (r == Some(true) <==> Lower(line) == "yes" || Lower(line) == "y")
    ensures line != [] ==> (r == Some(false) <==> Lower(line) == "no" || Lower(line) == "n")
  {
    var choice := if Lower(line) == [] then Lower(default) else Lower(line);
    Answer(choice)
  }

  /** The hint shown after the message; the capital letter marks the default. */
  function Hint(default: string): (r: string)
    ensures |r| == 7 && (r[2] == 'Y') != (r[4] == 'N')
  {
    if Lower(default) == "y" then " [Y/n] " else " [y/N] "
  }

  /** With an accepted default, an empty line answers with the default, and the hint
      capitalises exactly that answer. */
  lemma EmptyLineTakesDefault(default: string)
    requires ValidDefault(default)
    ensures Interpret("", default) == Some(Lower(default) == "y")
    ensures Hint(default)[2] == 'Y' <==> Interpret("", default) == Some(true)
    ensures Hint(default)[4] == 'N' <==> Interpret("", default) == Some(false)
  {
  }

  /** Answers are case-insensitive: a line means what its lower-case form means. */
  lemma InterpretIgnoresCase(line: string, default: string)
    ensures Interpret(Lower(line), default) == Interpret(line, default)
  {
    LowerIdempotent(line);
  }

  /** A non-empty line never falls back to the default: it answers only when it is
      one of the four accepted words in some mix of cases. */
  lemma NonEmptyLineIgnoresDefault(line: string, d1: string, d2: string)
    requires line != []
    ensures Interpret(line, d1) == Interpret(line, d2)
    ensures Interpret(line, d1) == Answer(Lower(line))
  {
  }

  /** A few lines and what they answer. */
  lemma InterpretExamples()
    ensures Interpret("YES", "y") == Some(true) && Interpret("No", "y") == Some(false)
    ensures Interpret("", "N") == Some(false) && Interpret("maybe", "y") == None
  {
    assert Lower("YES") == "yes";
    assert Lower("No") == "no";
    assert Lower("N") == "n";
    assert Lower("maybe") == "maybe";
  }

  /** `prompt_user`: rejects an invalid default before reading anything, then reads
      `lines` one at a time and answers with the first line that `Interpret` accepts;
      `consumed` counts the lines read. */
  method PromptUser(default: string, lines: seq<string>) returns (r: Result<bool>, consumed: nat)
    ensures r == Err(InvalidDefault) <==> !ValidDefault(default)
    ensures r == Err(InvalidDefault) ==> consumed == 0
    ensures consumed <= |lines|
    ensures forall j | 0 <= j < consumed - 1 :: Interpret(lines[j], default) == None
    ensures r.Ok? ==> 0 < consumed && Interpret(lines[consumed - 1], default) == Some(r.value)
    ensures r == Err(EndOfInput) ==>
      consumed == |lines| && forall j | 0 <= j < |lines| :: Interpret(lines[j], default) == None
  {
    if !ValidDefault(default) {
      return Err(InvalidDefault), 0;
    }
    consumed := 0;
    while consumed < |lines|
      invariant consumed <= |lines|
      invariant forall j | 0 <= j < consumed :: Interpret(lines[j], default) == None
    {
      var answer := Interpret(lines[consumed], default);
      consumed := consumed + 1;
      if answer.Some? {
        return Ok(answer.value), consumed;
      }
    }
    r := Err(EndOfInput);
  }
}
