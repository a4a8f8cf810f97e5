/**
 * The integer exercises: the parity test, the FizzBuzz classification of
 * a list of numbers, and the number-guessing game.
 */
module Exercises {
  import opened Wrappers
  import opened RustInt
  import opened Decimal

  /**
   * `is_even`: Rust's truncated remainder by 2 is zero. This agrees with
   * divisibility by 2 for negative numbers too.
   */
  function IsEven(n: int32): (r: bool)
    ensures r <==> n % 2 == 0
  {
    TruncRemZeroIffDivides(n, 2);
    TruncRem(n, 2) == 0
  }

  /** The divisor/word table of the FizzBuzz exercise, in the order it is consulted. */
  const FizzBuzzRules: seq<(int32, string)> := [(3, "Fizz"), (5, "Buzz")]

  /**
   * What FizzBuzz prints for `n`: "Fizz" when 3 divides `n`, then "Buzz"
   * when 5 divides it; when neither does, a line saying whether `n` is
   * even or odd.
   */
  function FizzBuzzLine(n: int32): string {
    var words := (if n % 3 == 0 then "Fizz" else "") + (if n % 5 == 0 then "Buzz" else "");
    if words != "" then words
    else IntToString(n) + " is " + (if IsEven(n) then "even" else "odd")
  }

  /** The four kinds of FizzBuzz line, by which of 3 and 5 divide the number. */
  lemma FizzBuzzLineCases(n: int32)
    ensures n % 3 == 0 && n % 5 == 0 ==> FizzBuzzLine(n) == "FizzBuzz"
    ensures n % 3 == 0 && n % 5 != 0 ==> FizzBuzzLine(n) == "Fizz"
    ensures n % 3 != 0 && n % 5 == 0 ==> FizzBuzzLine(n) == "Buzz"
    ensures n % 3 != 0 && n % 5 != 0 ==>
              FizzBuzzLine(n) == IntToString(n) + (if n % 2 == 0 then " is even" else " is odd")
  {
  }

  /** The words the first `k` rules of the table contribute for `n`. */
  ghost function RuleWords(n: int, k: nat): string {
    (if k >= 1 && n % 3 == 0 then "Fizz" else "") + (if k >= 2 && n % 5 == 0 then "Buzz" else "")
  }

  /**
   * The inner loop of FizzBuzz: appends the word of every rule whose
   * divisor divides `n` (by Rust's truncated remainder), in table order,
   * to the accumulator, and sets the flag when any rule fires.
   */
  method RuleDisplay(n: int32, display0: string, modified0: bool) returns (display: string, modified: bool)
    ensures display == display0 + (if n % 3 == 0 then "Fizz" else "") + (if n % 5 == 0 then "Buzz" else "")
    ensures modified <==> modified0 || n % 3 == 0 || n % 5 == 0
  {
    display := display0;
    modified := modified0;
    for k := 0 to |FizzBuzzRules|
      invariant display == display0 + RuleWords(n, k)
      invariant modified <==> modified0 || RuleWords(n, k) != ""
    {
      var (key, value) := FizzBuzzRules[k];
      TruncRemZeroIffDivides(n, key);
      if TruncRem(n, key) == 0 {
        display := display + value;
        modified := true;
      }
    }
  }

  /**
   * The FizzBuzz loop: one accumulator and one flag live across all the
   * numbers. For each number the rules append their words and set the
   * flag; the words are printed if the flag is set and the parity line
   * otherwise; then both are reset. Because of the reset, each printed
   * line depends on its own number only.
   */
  method FizzBuzz(nums: seq<int32>) returns (lines: seq<string>)
    ensures |lines| == |nums|
    ensures forall i :: 0 <= i < |nums| ==> lines[i] == FizzBuzzLine(nums[i])
  {
    lines := [];
    var display: string := "";
    var modified := false;
    for i := 0 to |nums|
      invariant |lines| == i
      invariant forall j :: 0 <= j < i ==> lines[j] == FizzBuzzLine(nums[j])
      invariant display == "" && !modified
    {
      var n := nums[i];
      display, modified := RuleDisplay(n, display, modified);
      var line;
      if modified {
        line := display;
      } else {
        line := IntToString(n) + " is " + (if IsEven(n) then "even" else "odd");
      }
      RuleDisplayLine(n, display, modified, line);
      lines := lines + [line];
      display := "";
      modified := false;
    }
  }

  /** What the inner loop leaves for `n` decides its line. */
  lemma RuleDisplayLine(n: int32, display: string, modified: bool, line: string)
    requires display == (if n % 3 == 0 then "Fizz" else "") + (if n % 5 == 0 then "Buzz" else "")
    requires modified <==> n % 3 == 0 || n % 5 == 0
    requires line == if modified then display else IntToString(n) + " is " + (if IsEven(n) then "even" else "odd")
    ensures line == FizzBuzzLine(n)
  {
  }

  /** A line starts with "Fizz" exactly when 3 divides the number. */
  lemma FizzIffDivisibleByThree(n: int32)
    ensures var line := FizzBuzzLine(n); |line| >= 4 && (line[..4] == "Fizz" <==> n % 3 == 0)
  {
    var line := FizzBuzzLine(n);
    if n % 3 != 0 {
      assert line[..4][0] != 'F' by {
        if n % 5 == 0 {
          assert line == "Buzz";
        } else {
          var digits := IntToString(n);
          assert line[0] == digits[0];
          assert digits[0] == '-' || IsDigit(digits[0]);
        }
      }
    }
  }

  /** A line ends with "Buzz" exactly when 5 divides the number. */
  lemma BuzzIffDivisibleByFive(n: int32)
    ensures var line := FizzBuzzLine(n); |line| >= 4 && (line[|line| - 4..] == "Buzz" <==> n % 5 == 0)
  {
    var line := FizzBuzzLine(n);
    var tail := line[|line| - 4..];
    if n % 5 == 0 {
      assert line == "Buzz" || line == "FizzBuzz";
    } else if n % 3 == 0 {
      assert tail == "Fizz";
    } else {
      assert tail[0] == 'e' || tail[0] == ' ';
    }
  }

  /**
   * The exercise prints the lines of 0, 1, 2, -1, 120, 3, 4, 16, 240, 20.
   * These are the lines of those numbers that 3 or 5 divides.
   */
  lemma FizzBuzzSampleWords()
    ensures FizzBuzzLine(0) == "FizzBuzz"
    ensures FizzBuzzLine(120) == "FizzBuzz"
    ensures FizzBuzzLine(3) == "Fizz"
    ensures FizzBuzzLine(240) == "FizzBuzz"
    ensures FizzBuzzLine(20) == "Buzz"
  {
  }

  /** A number neither 3 nor 5 divides gets the line naming its parity. */
  lemma ParityLine(n: int32, digits: string)
    requires n % 3 != 0 && n % 5 != 0 && IntToString(n) == digits
    ensures FizzBuzzLine(n) == digits + (if n % 2 == 0 then " is even" else " is odd")
  {
    assert " is " + "even" == " is even";
    assert " is " + "odd" == " is odd";
  }

  /** The lines printed for the odd numbers of the exercise, negative ones included. */
  lemma FizzBuzzSampleOdd()
    ensures FizzBuzzLine(1) == "1 is odd"
    ensures FizzBuzzLine(-1) == "-1 is odd"
  {
    ParityLine(1, "1");
    ParityLine(-1, "-1");
  }

  /** The lines printed for the even numbers of the exercise that neither 3 nor 5 divides. */
  lemma FizzBuzzSampleEven()
    ensures FizzBuzzLine(2) == "2 is even"
    ensures FizzBuzzLine(4) == "4 is even"
    ensures FizzBuzzLine(16) == "16 is even"
  {
    ParityLine(2, "2");
    ParityLine(4, "4");
    assert IntToString(16) == "16" by {
      assert NatToString(16) == NatToString(1) + [DigitChar(6)];
    }
    ParityLine(16, "16");
  }

  /**
   * `check_guess`, as the evident intent of its `match` on `guess -
   * secret`: -1, 0 or 1 by the sign of the difference, taken without
   * overflow.
   */
  function CheckGuess(guess: int32, secret: int32): (r: int)
    ensures r == -1 <==> guess < secret
    ensures r == 0 <==> guess == secret
    ensures r == 1 <==> guess > secret
  {
    Sign(guess - secret)
  }

  /**
   * `check_guess` as compiled without overflow checks: `guess - secret` is
   * computed in `i32` and wraps around before its sign is taken.
   */
  function CheckGuessWrapping(guess: int32, secret: int32): (r: int)
    ensures r in {-1, 0, 1}
    ensures r == 0 <==> guess == secret
  {
    var d := guess - secret;
    var w := Wrap32(d);
    assert w == 0 ==> d == 0 by {
      if w == 0 {
        WrapZeroOnlyAtZero(d);
      }
    }
    Sign(w)
  }

  /** A difference of two `i32` values wraps to zero only if it is zero. */
  lemma WrapZeroOnlyAtZero(d: int)
    requires -0x1_0000_0000 < d < 0x1_0000_0000
    requires Wrap32(d) == 0
    ensures d == 0
  {
    assert d % 0x1_0000_0000 == 0;
  }

  /** Whenever the difference fits in `i32`, the two readings agree. */
  lemma CheckGuessWrappingAgrees(guess: int32, secret: int32)
    requires I32_MIN <= guess - secret <= I32_MAX
    ensures CheckGuessWrapping(guess, secret) == CheckGuess(guess, secret)
  {
  }

  /** The wrapped subtraction calls the smallest `i32` "too high" against a secret of 1. */
  lemma CheckGuessWrappingMisjudges()
    ensures CheckGuessWrapping(I32_MIN, 1) == 1
    ensures CheckGuess(I32_MIN, 1) == -1
  {
  }

  /** What the game prints after a guess. */
  datatype Hint = TooLow | Correct | TooHigh

  /** The message printed for a result of `check_guess`. */
  function HintFor(checkResult: int): (h: Hint)
    ensures h == Correct <==> checkResult == 0
    ensures h == TooLow <==> checkResult < 0
    ensures h == TooHigh <==> checkResult > 0
  {
    if checkResult == 0 then Correct else if checkResult < 0 then TooLow else TooHigh
  }

  /** With the intended comparison, the hint says how the guess compares with the secret. */
  lemma HintForCheckGuess(guess: int32, secret: int32)
    ensures HintFor(CheckGuess(guess, secret)) == Correct <==> guess == secret
    ensures HintFor(CheckGuess(guess, secret)) == TooLow <==> guess < secret
    ensures HintFor(CheckGuess(guess, secret)) == TooHigh <==> guess > secret
  {
  }

  /**
   * The guessing loop: read guesses in order until one equals the secret,
   * printing a hint per guess, and report the 1-based count of guesses.
   * The hints are those of `check_guess` as written, whose difference
   * wraps around; the game still ends exactly at the secret, since the
   * wrapped difference is zero only for equal values. Running out of
   * input is an index out of bounds, given here as `None`.
   */
  method GuessingGame(input: seq<int32>, secret: int32) returns (hints: seq<Hint>, took: Option<nat>)
    ensures took.Some? <==> secret in input
    ensures took.Some? ==> 1 <= took.value <= |input| && input[took.value - 1] == secret
    ensures took.Some? ==> forall j :: 0 <= j < took.value - 1 ==> input[j] != secret
    ensures |hints| == if took.Some? then took.value else |input|
    ensures forall j :: 0 <= j < |hints| ==> hints[j] == HintFor(CheckGuessWrapping(input[j], secret))
  {
    hints := [];
    var iterations: nat := 1;
    while true
      invariant 1 <= iterations <= |input| + 1
      invariant |hints| == iterations - 1
      invariant forall j :: 0 <= j < iterations - 1 ==> input[j] != secret
      invariant forall j :: 0 <= j < |hints| ==> hints[j] == HintFor(CheckGuessWrapping(input[j], secret))
      decreases |input| + 1 - iterations
    {
      if iterations - 1 >= |input| {
        took := None;
        return;
      }
      var guess := input[iterations - 1];
      var checkResult := CheckGuessWrapping(guess, secret);
      hints := hints + [HintFor(checkResult)];
      if checkResult == 0 {
        break;
      }
      iterations := iterations + 1;
    }
    took := Some(iterations);
  }

  /** The guesses and secret of the exercise: the secret is the 11th guess, and no earlier one. */
  const SampleGuesses: seq<int32> := [0, 1, 2, -1, 120, 3, 4, -16, -240, 20, -2]
  const SampleSecret: int32 := -2

  lemma SampleTakesElevenGuesses()
    ensures SampleGuesses[10] == SampleSecret
    ensures forall j :: 0 <= j < 10 ==> SampleGuesses[j] != SampleSecret
  {
  }
}
