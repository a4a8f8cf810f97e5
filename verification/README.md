# Rust exercises and a concurrent website checker, modelled in Dafny

This project models the logic of a small collection of Rust programs.

- **Website checker** (`final_project_website_checker`). Reads a file of URLs and gives each URL to a pool of worker threads. A worker requests the URL, retrying on transport failures up to a configured number of times. It reports the status code or error, the time of the last request, and a timestamp. Each result becomes one JSON line in a log. The model covers:
  - how one answer is classified (`check_once`);
  - the retry loop of a worker;
  - which lines of the URL file become jobs (`load_urls`);
  - the clamp on the number of workers;
  - the object each log line holds (`to_json_line`).
- **Integer exercises** (`assignment_module_1`):
  - the parity test `is_even`;
  - the FizzBuzz classification of ten numbers;
  - `check_guess` and the number-guessing loop.
- **Summation and word counting** (`assignment_module_2`):
  - `sum_with_step`, which adds an arithmetic series to a running total;
  - `most_frequent_word`, which counts words in a frequency table and reports the first word to reach the highest count.
- **Book file** (`assignment_module_3`). `save_books` writes books as `title,author,year` lines. `load_books` reads them back with `BufRead::lines` and `str::split(',')`.

Supporting modules model the parts of Rust's standard library that these programs depend on:

- **`RustInt`**:
  - the `i32`, `u16` and `u32` ranges;
  - truncating `/` and `%`;
  - `i32` wrap-around;
  - `u32::saturating_add`.
- **`Text`**:
  - `char::is_whitespace` (the Unicode `White_Space` property);
  - `str::trim`;
  - `str::split` on one character;
  - `str::split_whitespace`;
  - the line splitting of `BufRead::lines`.
- **`Decimal`**:
  - `{}` formatting of integers;
  - `str::parse::<u16>`.
- **`Wrappers`**: `Option` and `Result`.

`worker_thread` computes the request budget with `max_retries.saturating_add(1)` (final_project_website_checker/src/main.rs:94), so `max_retries = u32::MAX` allows `u32::MAX` requests, not `max_retries + 1`. `WebsiteChecker.AttemptBudget` models exactly this.

I/O is replaced by values:

- A file is its contents as a string. Saving returns the contents and loading takes them.
- The network is a sequence of answers with the time each request took.
- The clock is a timestamp parameter.
- Printed output is returned as a sequence of lines or hints.

## Model

| member | source | states |
|---|---|---|
| WebsiteChecker.CheckOnce | final_project_website_checker/src/main.rs:63-72 | Every answer that carries an HTTP status is `Ok` with that code, error statuses (4xx/5xx) included. Only a transport failure is `Err`, and its message is `"transport error: "` followed by the failure's text. |
| WebsiteChecker.AttemptBudget | final_project_website_checker/src/main.rs:94 | A job may make `max_retries + 1` requests, saturating at `u32::MAX` instead of overflowing. The budget is never zero. |
| WebsiteChecker.Retry | final_project_website_checker/src/main.rs:91-108 | Between 1 and the budget requests are made. Every request before the last failed. The job stops early only on a request that got a status. The report carries the last request's status and the last request's time only. |
| WebsiteChecker.RetryMade | final_project_website_checker/src/main.rs:95-108 | The number of requests is fixed by the answers: one past the first request that got a status, or the whole budget if none did. |
| WebsiteChecker.RetryStopsAtFirstStatus | final_project_website_checker/src/main.rs:99-103 | The first request that gets a status ends the job with that status and its time. |
| WebsiteChecker.RetryExhausted | final_project_website_checker/src/main.rs:95-108 | When every request fails, the whole budget is spent and the last failure is reported. |
| WebsiteChecker.RetryTimeIsLastAttempt | final_project_website_checker/src/main.rs:96-98 | A failed request of 5 ns followed by a 200 of 7 ns reports 7 ns: the time is not summed over retries. |
| WebsiteChecker.RetryScenarioAnswered | final_project_website_checker/src/main.rs:94-103 | With one retry, a job answered at once makes one request. |
| WebsiteChecker.RetryScenarioErrorStatus | final_project_website_checker/src/main.rs:64-68 | With one retry, a 503 after a refused connection ends the job with status 503: an error status is not retried. |
| WebsiteChecker.RetryScenarioUnreachable | final_project_website_checker/src/main.rs:94-108 | With one retry, a job that never connects makes two requests and reports the second failure. |
| WebsiteChecker.RetryNeverUnattempted | final_project_website_checker/src/main.rs:91-97 | At least one request is always made, so the `"unattempted"` placeholder is never reported. |
| WebsiteChecker.RunJob | final_project_website_checker/src/main.rs:91-115 | The worker's loop produces the `WebsiteStatus` of the retry rule, with the job's URL and the given timestamp, and never the placeholder status. |
| WebsiteChecker.TrimAll | final_project_website_checker/src/main.rs:47 | One result per line, and result `i` is line `i` trimmed, so it has no whitespace at either end. |
| WebsiteChecker.DropEmpty | final_project_website_checker/src/main.rs:48-50 | Only non-empty strings of the input are kept, never more than the input holds. |
| WebsiteChecker.UrlsOf | final_project_website_checker/src/main.rs:46-52 | At most one URL per line, and every URL is non-empty and trimmed. |
| WebsiteChecker.LoadUrls | final_project_website_checker/src/main.rs:42-53 | Every URL read from the file is non-empty and trimmed. |
| WebsiteChecker.UrlsOfConcat | final_project_website_checker/src/main.rs:46-51 | The filter keeps line order: the URLs of two runs of lines are those of the first run followed by those of the second. |
| WebsiteChecker.UrlsOfLine | final_project_website_checker/src/main.rs:47-50 | A single line gives its trimmed text, or nothing exactly when it is blank. |
| WebsiteChecker.UrlsOfBlank | final_project_website_checker/src/main.rs:48 | Blank lines contribute no URL. |
| WebsiteChecker.DropEmptyKeeps | final_project_website_checker/src/main.rs:48-50 | Non-empty strings all pass the filter, in order. |
| WebsiteChecker.UrlsOfKeeps | final_project_website_checker/src/main.rs:47-50 | Trimmed, non-empty URLs pass through unchanged. |
| WebsiteChecker.LoadUrlsUnlines | final_project_website_checker/src/main.rs:42-53 | A file written one trimmed URL per line reads back as the same URLs (round trip). |
| WebsiteChecker.EffectiveWorkers | final_project_website_checker/src/main.rs:174 | The number of workers is the configured number, or 1 when the configuration says 0. |
| WebsiteChecker.ToJson | final_project_website_checker/src/main.rs:143-163 | A log line has exactly the keys url, status, response_time_ms and timestamp. The status is a number exactly when there is a code and a string otherwise. The time is truncated to whole milliseconds. |
| WebsiteChecker.StatusOfToJson | final_project_website_checker/src/main.rs:147-161 | The status can be read back from a log line unchanged: a code and an error text cannot be confused. |
| RustInt.SaturatingAddU32 | final_project_website_checker/src/main.rs:94 | The sum when it fits in `u32`, and `u32::MAX` otherwise. |
| Text.Trim | final_project_website_checker/src/main.rs:47 | The result has no whitespace at either end and is no longer than the input. |
| Text.TrimIsInfix | final_project_website_checker/src/main.rs:47 | `trim` removes only whitespace, and only from the two ends: the result is a contiguous piece of the input. |
| Text.TrimEmptyIffBlank | final_project_website_checker/src/main.rs:47-48 | A trimmed line is empty exactly when the line is all whitespace. |
| Text.TrimOfTrimmed | final_project_website_checker/src/main.rs:47 | `trim` leaves a trimmed string unchanged, so trimming twice is trimming once. |
| Text.Lines | final_project_website_checker/src/main.rs:46 | No line returned by `lines()` contains a line feed. |
| Text.LinesLineFeed | final_project_website_checker/src/main.rs:46 | A line ended by a line feed is read without one trailing carriage return, and reading continues after the line feed. |
| Text.LinesWithoutLineFeed | final_project_website_checker/src/main.rs:46 | Text after the last line feed is one more line, carriage return kept, or no line when it is empty. With `LinesLineFeed` this fixes `lines()` on every string. |
| Text.LinesSamples | assignment_module_3/src/main.rs:21 | "a\r\nb" reads as "a" and "b", "a\r" as "a\r", and "\r\n" as one empty line. |
| Text.LinesUnlines | assignment_module_3/src/main.rs:13-21 | Lines written one `writeln!` at a time are read back by `lines()` as the same lines, when none has a line feed inside or a trailing carriage return. |
| Text.Split | assignment_module_3/src/main.rs:23 | `split(',')` gives at least one piece. No piece contains the separator, and joining the pieces with it gives back the input. |
| Text.SplitConcat | assignment_module_3/src/main.rs:23 | Splitting at one occurrence of the separator splits the two sides independently. |
| Text.SplitJoin | assignment_module_3/src/main.rs:23 | `split` inverts joining parts that do not contain the separator. |
| Text.SplitWhitespace | assignment_module_2/src/main.rs:22 | Every piece `split_whitespace` yields is a non-empty word without whitespace. |
| Text.SplitWhitespaceEmptyIffBlank | assignment_module_2/src/main.rs:22 | There are no words exactly when the text is blank. |
| Text.SplitWhitespaceJoin | assignment_module_2/src/main.rs:22 | Words joined by single spaces split back into the same words. |
| Text.SplitWhitespaceAtWhitespace | assignment_module_2/src/main.rs:22 | Splitting at any whitespace character, a space, a tab, a line feed or any other `White_Space` character, splits the two sides independently. With `SplitWhitespaceLeadingWord` and `SplitWhitespaceEmptyIffBlank` this fixes the words of every text. |
| Text.SplitWhitespaceLeadingWord | assignment_module_2/src/main.rs:22 | A word followed by whitespace, or by nothing, is the first word yielded, and splitting continues after it. |
| Text.SplitWhitespaceSamples | assignment_module_2/src/main.rs:22 | "a\tb", "a\nb" and "a" U+3000 "b" each split into "a" and "b". |
| RustInt.TruncDivRemainder | assignment_module_2/src/main.rs:2 | Rust's `/` leaves a remainder smaller than the divisor in magnitude, with the sign of the dividend. |
| RustInt.TruncRemZeroIffDivides | assignment_module_1/src/main.rs:24 | For a positive divisor, `n % d == 0` in Rust holds exactly when `d` divides `n`, negative `n` included. |
| RustInt.Wrap32 | assignment_module_1/src/main.rs:49 | The wrapped `i32` difference equals the true difference when that fits, and is congruent to it modulo 2^32 always. |
| Exercises.IsEven | assignment_module_1/src/main.rs:24 | `is_even` holds exactly when 2 divides `n`, negative numbers included. |
| Exercises.FizzBuzzLineCases | assignment_module_1/src/main.rs:31-42 | `FizzBuzzLine`, the line printed for one number: "FizzBuzz" when 3 and 5 both divide it, "Fizz" or "Buzz" when only one does, otherwise the number followed by " is even" or " is odd" as 2 divides it or not. |
| Exercises.RuleDisplay | assignment_module_1/src/main.rs:32-37 | The inner loop appends "Fizz" when 3 divides `n`, then "Buzz" when 5 does, to whatever the accumulator already held. The flag ends up set exactly when it was set already or 3 or 5 divides `n`. |
| Exercises.FizzBuzz | assignment_module_1/src/main.rs:26-46 | One line per number, in order, each depending on its own number alone. The accumulator and flag declared once before the loop (lines 29-30) are empty and clear at the start of every pass, because of the reset at its end (lines 43-44). |
| Exercises.FizzIffDivisibleByThree | assignment_module_1/src/main.rs:31-42 | A line starts with "Fizz" exactly when 3 divides the number. |
| Exercises.BuzzIffDivisibleByFive | assignment_module_1/src/main.rs:31-42 | A line ends with "Buzz" exactly when 5 divides the number. |
| Exercises.ParityLine | assignment_module_1/src/main.rs:38-42 | A number that neither 3 nor 5 divides gets `"{n} is even"` or `"{n} is odd"`. |
| Exercises.FizzBuzzSampleWords | assignment_module_1/src/main.rs:27-39 | Of the exercise's numbers, 0, 120 and 240 print FizzBuzz, 3 prints Fizz and 20 prints Buzz. |
| Exercises.FizzBuzzSampleOdd | assignment_module_1/src/main.rs:27-41 | 1 and -1 print "1 is odd" and "-1 is odd". |
| Exercises.FizzBuzzSampleEven | assignment_module_1/src/main.rs:27-41 | 2, 4 and 16 print "2 is even", "4 is even" and "16 is even". |
| Exercises.CheckGuess | assignment_module_1/src/main.rs:48-54 | -1, 0 or 1 exactly when the guess is below, equal to or above the secret. |
| Exercises.HintFor | assignment_module_1/src/main.rs:65-72 | "Correct!" exactly for 0, "Too low" exactly for a negative result and "Too high" exactly for a positive one. |
| Exercises.HintForCheckGuess | assignment_module_1/src/main.rs:64-72 | With the intended comparison, the hint is "Correct!", "Too low" or "Too high" exactly when the guess equals, is below or is above the secret. |
| Exercises.CheckGuessWrapping | assignment_module_1/src/main.rs:48-54 | The function as compiled without overflow checks: the result is always -1, 0 or 1, and it is 0 exactly when the guess equals the secret. |
| Exercises.CheckGuessWrappingAgrees | assignment_module_1/src/main.rs:49 | When `guess - secret` fits in `i32`, the code as written computes the intended answer. |
| Exercises.CheckGuessWrappingMisjudges | assignment_module_1/src/main.rs:49-53 | `check_guess(i32::MIN, 1)` wraps to a positive difference and answers "too high" for a guess that is too low. |
| Exercises.GuessingGame | assignment_module_1/src/main.rs:56-76 | The game ends exactly when the secret is among the guesses. It reports the 1-based position of its first occurrence, with one hint per guess read. Each hint is the one `check_guess` gives as written, with the difference wrapping around in `i32`, so a hint can be wrong when the difference overflows. The game still stops exactly at the secret, because the wrapped difference is zero only when the guess equals the secret. |
| Exercises.SampleTakesElevenGuesses | assignment_module_1/src/main.rs:57-61 | In the exercise's input the secret -2 first appears as the eleventh guess, so the game reports 11 guesses. |
| StepSum.StepTermsClosedForm | assignment_module_2/src/main.rs:1-5 | The terms added sum to `(k+1)*low + step*k*(k+1)/2`, where `k` is the last index. |
| StepSum.SumWithStep | assignment_module_2/src/main.rs:1-5 | It adds the series to the given total, which it does not replace. It adds nothing when `(high - low) / step`, truncated toward zero, is negative. |
| StepSum.SumWithStepSamples | assignment_module_2/src/main.rs:7-19 | The three printed sums are 5050, 30 and 38. |
| WordFrequency.FindEntry | assignment_module_2/src/main.rs:28-30 | The position of the word's first entry in the table (no earlier entry holds the word), or the table's length exactly when the word has no entry. |
| WordFrequency.TalliesIncrement | assignment_module_2/src/main.rs:29-31 | Incrementing a word's entry keeps the table an exact tally of the words read. |
| WordFrequency.TalliesAppend | assignment_module_2/src/main.rs:39-41 | A word without an entry has not been read before, and appending it with count 1 keeps the table an exact tally. |
| WordFrequency.ReadWord | assignment_module_2/src/main.rs:26-41 | One pass of the loop keeps the table an exact tally and keeps the best answer so far correct. |
| WordFrequency.MostFrequentWord | assignment_module_2/src/main.rs:21-44 | The answer is `("", 0)` when no word repeats. Otherwise the count is the largest number of occurrences of any word. The word is the first to reach that count as the text is read, because a tie never replaces it. |
| WordFrequency.MostFrequentUnique | assignment_module_2/src/main.rs:21-44 | That description allows exactly one answer, so the result is fully determined. |
| WordFrequency.NoRepeatedWord | assignment_module_2/src/main.rs:24-25 | Text in which no word repeats, the empty text included, gets `("", 0)`: a word seen once never becomes the answer. |
| WordFrequency.SampleTextWords | assignment_module_2/src/main.rs:47 | The exercise's sentence splits into its thirteen words. |
| WordFrequency.SampleMostFrequent | assignment_module_2/src/main.rs:46-50 | For the exercise's sentence the answer is "the", 3 times. |
| Decimal.NatToString | assignment_module_3/src/main.rs:13 | `{}` prints at least one digit, with no leading zero. |
| Decimal.NatToStringValue | assignment_module_3/src/main.rs:13 | The printed digits denote the number printed. |
| Decimal.IntToString | assignment_module_1/src/main.rs:41 | A signed number prints with a leading `-` exactly when it is negative. |
| Decimal.IntToStringDigits | assignment_module_1/src/main.rs:41 | After the sign comes the shortest decimal digits of the magnitude: digits only, no leading zero, and denoting the magnitude of `n`. |
| Decimal.ParseU16 | assignment_module_3/src/main.rs:27 | Parsing succeeds exactly for an optional `+` followed by ASCII digits whose value fits in `u16`, and yields that value. |
| Decimal.ParseU16OfNatToString | assignment_module_3/src/main.rs:13-27 | Parsing a printed `u16` gives the number back. |
| BookStore.BookLine | assignment_module_3/src/main.rs:13 | A book's line ends in a digit of the year. It has no line feed inside when the text fields have none. |
| BookStore.BookLineFields | assignment_module_3/src/main.rs:13-23 | When neither text field contains a comma, a book's line splits into exactly its title, author and year. |
| BookStore.SaveBooks | assignment_module_3/src/main.rs:10-15 | The file is empty exactly when there are no books, and otherwise ends with a line feed. |
| BookStore.SaveBooksIsUnlines | assignment_module_3/src/main.rs:12-14 | The file is each book's line followed by a line feed, in order. |
| BookStore.SaveBooksLines | assignment_module_3/src/main.rs:12-21 | Reading a saved file line by line gives exactly one line per book, each book's own line, when no title or author holds a line feed. Commas do not matter here. |
| BookStore.ParseLine | assignment_module_3/src/main.rs:22-28 | One field is a missing author and two a missing year. Three or more fields give a book exactly when the third parses as `u16`. That book's title is the first field, its author the second and its year the third parsed as `u16`. Otherwise the third field is reported as the bad year. |
| BookStore.ParseLineOfFields | assignment_module_3/src/main.rs:23-27 | A line of comma-free title, author and year fields, with any further fields after them, reads as the book of those three fields, or fails with the year field as the bad year when it is not a `u16`. |
| BookStore.ParseLineSample | assignment_module_3/src/main.rs:23-27 | "Dune,Frank Herbert,+01965" reads as "Dune" by "Frank Herbert" from 1965: `u16` parsing accepts a `+` sign and leading zeros. |
| BookStore.ParseLineIgnoresExtraFields | assignment_module_3/src/main.rs:23-27 | Fields after the year are ignored. |
| BookStore.Collect | assignment_module_3/src/main.rs:21-30 | The books, in order, exactly when every line reads. Otherwise the first failing line and its problem, every earlier line having read. |
| BookStore.ParseAll | assignment_module_3/src/main.rs:21-30 | The same, stated directly about the lines read. |
| BookStore.LoadBooks | assignment_module_3/src/main.rs:17-31 | One book per line of the file, or the first line that fails. |
| BookStore.ParseBookLine | assignment_module_3/src/main.rs:13-27 | A line written for a book without commas or line feeds reads back as that book. |
| BookStore.LoadSavedBooks | assignment_module_3/src/main.rs:10-31 | Loading what was saved gives the same books back, when no title or author holds a comma or line feed (round trip). |
| BookStore.CommaInTitleBreaksLoading | assignment_module_3/src/main.rs:13-27 | The format has no escaping. A comma in a title shifts the author into the year field. When the author does not parse as `u16`, loading fails on line 0 with the author as the bad year. |
| BookStore.CommaInTitleChangesBook | assignment_module_3/src/main.rs:13-27 | When the author does parse as `u16`, loading succeeds but silently reads a different book: the text before the comma as title, the rest of the title as author and the author as year. |
| BookStore.CommaInTitleChangesExample | assignment_module_3/src/main.rs:13-27 | "a,b" by "1999" (2000) is loaded back as "a" by "b" (1999). |
| BookStore.CommaInTitleExample | assignment_module_3/src/main.rs:13-27 | "Hello, World" by "Anon" (2000) cannot be loaded back. |
| BookStore.SampleRoundTrip | assignment_module_3/src/main.rs:33-46 | The two books `main` saves are loaded back unchanged. |

## Left out

- Threads, the job and result channels, the `Mutex` around the receiver, and the order in which workers finish are left out. A job is modelled alone, as one worker runs it.
- HTTP is left out: `ureq`, `build_agent` and the request timeout. One request is the `Response` it would get, and a job takes the sequence of responses its requests would get.
- `Instant` and `Utc::now` are parameters: the time of each request and the timestamp string.
- `to_json_line`'s JSON text is left out. It is modelled as a map from key to value, so key order, string escaping and RFC 3339 formatting are not modelled.
- `Config::from_file` (JSON parsing of the configuration file), `pretty_print`, the run-start and run-end records written to the log, and the log file itself are left out. They are output formatting and file I/O.
- `main`'s early exit on an empty URL list is left out. It returns before the log file is opened and truncated, before the `run_started` record is written and before any worker is started, so an earlier log is left untouched. Opening the log, the run records and the worker pool are all left out as well.
- File opening, creating and the `unwrap`/`?` on I/O errors are left out, including a line that is not valid UTF-8. A file is its contents as a string of Unicode scalar values.
- The `data_fetch` program is not part of this model.
- The temperature conversions of the first module are left out, because they are floating point.
- The `println!` calls are left out. FizzBuzz returns the exact text of its lines instead of printing them. The guessing game's messages are abstracted to `Hint` values, its final "Took … guesses." line is reduced to the count it reports, and the messages of `main` in the book module are dropped.
- StepSum.SumWithStep: does not model `i32` overflow of the total, of `high - low` or of `low + step * n`, because all arithmetic is unbounded. It also does not model the overflow of `(high - low) / step` when `high - low` is `i32::MIN` and `step` is -1, which panics in release builds too. It requires a non-zero step where Rust panics on division by zero.
- WordFrequency.MostFrequentWord: does not model `usize` overflow of the counts, because counts are unbounded naturals.
- Exercises.GuessingGame: running out of input, an index out of bounds in Rust, is reported as `None` rather than as a panic. A debug build would also panic on an overflowing `guess - secret`; the model follows the release build, which wraps around.

## Findings

| source | as written | input that shows it | evidently intended | confidence | as-written member | corrected member |
|---|---|---|---|---|---|---|
| assignment_module_1/src/main.rs:49 | `guess - secret` is computed in `i32`. It panics on overflow in a debug build and wraps around in a release build. | `check_guess(i32::MIN, 1)`: the wrapped difference is `i32::MAX`, so the answer is 1 ("too high") for a guess below the secret | the sign of the mathematical difference, -1 for this input | not executed | Exercises.CheckGuessWrapping | Exercises.CheckGuess |
