/**
 * The string operations of Rust's standard library that the programs rely
 * on, over strings modelled as sequences of Unicode scalar values:
 * `char::is_whitespace`, `str::trim`, `str::split` on one character,
 * `str::split_whitespace`, and the line splitting of `BufRead::lines`.
 */
module Text {

  /** Rust's `char::is_whitespace`: the Unicode `White_Space` property. */
  predicate IsWhitespace(c: char) {
    || ('\t' <= c <= '\r')
    || c == ' '
    || c == '\U{0085}'
    || c == '\U{00A0}'
    || c == '\U{1680}'
    || ('\U{2000}' <= c <= '\U{200A}')
    || c == '\U{2028}'
    || c == '\U{2029}'
    || c == '\U{202F}'
    || c == '\U{205F}'
    || c == '\U{3000}'
  }

  predicate AllWhitespace(s: string) {
    forall i :: 0 <= i < |s| ==> IsWhitespace(s[i])
  }

  /** A string with no whitespace at either end. */
  predicate IsTrimmed(s: string) {
    s == [] || (!IsWhitespace(s[0]) && !IsWhitespace(s[|s| - 1]))
  }

  /** `str::trim_start`: drops the leading whitespace, and nothing else. */
  function TrimStart(s: string): (r: string)
    ensures |r| <= |s|
    ensures r == [] || !IsWhitespace(r[0])
  {
    if s != [] && IsWhitespace(s[0]) then TrimStart(s[1..]) else s
  }

  /** What `TrimStart` drops is a whitespace prefix. */
  lemma {:induction false} TrimStartDropsPrefix(s: string)
    ensures var r := TrimStart(s);
            r == s[|s| - |r|..] && AllWhitespace(s[..|s| - |r|])
    decreases |s|
  {
    if s != [] && IsWhitespace(s[0]) {
      TrimStartDropsPrefix(s[1..]);
      var r := TrimStart(s);
      assert s[..|s| - |r|] == [s[0]] + s[1..][..|s| - 1 - |r|];
    }
  }

  /** `str::trim_end`: drops the trailing whitespace, and nothing else. */
  function TrimEnd(s: string): (r: string)
    ensures |r| <= |s|
    ensures r == [] || !IsWhitespace(r[|r| - 1])
  {
    if s != [] && IsWhitespace(s[|s| - 1]) then TrimEnd(s[..|s| - 1]) else s
  }

  /** What `TrimEnd` drops is a whitespace suffix. */
  lemma {:induction false} TrimEndDropsSuffix(s: string)
    ensures var r := TrimEnd(s);
            r == s[..|r|] && AllWhitespace(s[|r|..])
    decreases |s|
  {
    if s != [] && IsWhitespace(s[|s| - 1]) {
      TrimEndDropsSuffix(s[..|s| - 1]);
      var r := TrimEnd(s);
      assert s[|r|..] == s[..|s| - 1][|r|..] + [s[|s| - 1]];
    }
  }

  /**
   * `str::trim`: the part of `s` left after removing whitespace from both
   * ends; it starts and ends with a non-whitespace character.
   */
  function Trim(s: string): (r: string)
    ensures IsTrimmed(r)
    ensures |r| <= |s|
  {
    var t := TrimStart(s);
    var r := TrimEnd(t);
    TrimEndDropsSuffix(t);
    assert r != [] ==> r[0] == t[0];
    r
  }

  /** What `Trim` removes is whitespace only, and what it keeps is contiguous in `s`. */
  lemma TrimIsInfix(s: string)
    ensures var r := Trim(s);
            exists lo :: 0 <= lo <= |s| - |r| && r == s[lo..lo + |r|]
                         && AllWhitespace(s[..lo]) && AllWhitespace(s[lo + |r|..])
  {
    var t := TrimStart(s);
    var r := TrimEnd(t);
    var lo := |s| - |t|;
    TrimStartDropsPrefix(s);
    TrimEndDropsSuffix(t);
    SliceOfSlice(s, lo, |r|);
    assert Trim(s) == r;
    assert r == s[lo..lo + |r|];
    assert AllWhitespace(s[..lo]) && AllWhitespace(s[lo + |r|..]);
  }

  lemma SliceOfSlice<T>(x: seq<T>, lo: nat, k: nat)
    requires lo + k <= |x|
    ensures x[lo..][..k] == x[lo..lo + k] && x[lo..][k..] == x[lo + k..]
  {
  }

  /** Trimming a trimmed string changes nothing, so `Trim` is idempotent. */
  lemma TrimOfTrimmed(s: string)
    requires IsTrimmed(s)
    ensures Trim(s) == s
  {
  }

  /** `Trim` yields the empty string exactly for blank input. */
  lemma TrimEmptyIffBlank(s: string)
    ensures Trim(s) == [] <==> AllWhitespace(s)
  {
    var t := TrimStart(s);
    var r := TrimEnd(t);
    TrimStartDropsPrefix(s);
    TrimEndDropsSuffix(t);
    assert Trim(s) == r;
    if t == [] {
      assert s[..|s|] == s;
    } else {
      assert t[0] == s[|s| - |t|];
    }
  }

  /** `parts` joined with `sep` between consecutive elements, as `[&str]::join`. */
  function Join(parts: seq<string>, sep: char): string {
    if parts == [] then []
    else if |parts| == 1 then parts[0]
    else parts[0] + [sep] + Join(parts[1..], sep)
  }

  /** Joining a concatenation joins the two halves around one separator. */
  lemma {:induction false} JoinConcat(a: seq<string>, b: seq<string>, sep: char)
    requires a != [] && b != []
    ensures Join(a + b, sep) == Join(a, sep) + [sep] + Join(b, sep)
    decreases |a|
  {
    if |a| > 1 {
      JoinConcat(a[1..], b, sep);
      assert (a + b)[1..] == a[1..] + b;
    } else {
      assert (a + b)[1..] == b;
    }
  }

  /** Three parts joined: each separated from the next by one `sep`. */
  lemma JoinThree(x: string, y: string, z: string, sep: char)
    ensures Join([x, y, z], sep) == x + [sep] + y + [sep] + z
  {
    assert [x, y, z][1..] == [y, z];
    assert [y, z][1..] == [z];
    assert Join([y, z], sep) == y + [sep] + z;
    assert Join([x, y, z], sep) == x + [sep] + (y + [sep] + z);
    assert x + [sep] + (y + [sep] + z) == x + [sep] + y + [sep] + z;
  }

  /**
   * `str::split` on a single character: the pieces between occurrences of
   * `sep`. There is always at least one piece, no piece contains `sep`,
   * and joining the pieces with `sep` gives back `s`.
   */
  function Split(s: string, sep: char): (parts: seq<string>)
    ensures |parts| >= 1
    ensures forall i :: 0 <= i < |parts| ==> sep !in parts[i]
    ensures Join(parts, sep) == s
  {
    if s == [] then [[]]
    else
      var rest := Split(s[1..], sep);
      if s[0] == sep then
        assert [s[0]] + s[1..] == s;
        [[]] + rest
      else
        var parts := [[s[0]] + rest[0]] + rest[1..];
        assert parts[1..] == rest[1..];
        assert |parts| > 1 ==> Join(rest, sep) == rest[0] + [sep] + Join(parts[1..], sep);
        assert [s[0]] + s[1..] == s;
        parts
  }

  /** Splitting at a separator splits the two sides independently. */
  lemma {:induction false} SplitConcat(a: string, b: string, sep: char)
    ensures Split(a + [sep] + b, sep) == Split(a, sep) + Split(b, sep)
    decreases |a|
  {
    var s := a + [sep] + b;
    if a == [] {
      assert s[1..] == b;
    } else {
      assert s[0] == a[0] && s[1..] == a[1..] + [sep] + b;
      SplitConcat(a[1..], b, sep);
    }
  }

  /** A string without the separator is a single piece. */
  lemma {:induction false} SplitNoSeparator(s: string, sep: char)
    requires sep !in s
    ensures Split(s, sep) == [s]
    decreases |s|
  {
    if s != [] {
      SplitNoSeparator(s[1..], sep);
      assert [s[0]] + s[1..] == s;
    }
  }

  /** `Split` inverts `Join` when no part contains the separator. */
  lemma {:induction false} SplitJoin(parts: seq<string>, sep: char)
    requires |parts| >= 1
    requires forall i :: 0 <= i < |parts| ==> sep !in parts[i]
    ensures Split(Join(parts, sep), sep) == parts
    decreases |parts|
  {
    SplitNoSeparator(parts[0], sep);
    if |parts| > 1 {
      SplitJoin(parts[1..], sep);
      SplitConcat(parts[0], Join(parts[1..], sep), sep);
      assert parts == [parts[0]] + parts[1..];
    }
  }

  /** Drops one carriage return at the end of a line. */
  function StripCarriageReturn(line: string): (r: string)
    ensures r == line || r + "\r" == line
  {
    if line != [] && line[|line| - 1] == '\r' then line[..|line| - 1] else line
  }

  /** The length of the text before the first line feed, or of all of `s` when it has none. */
  function LineLength(s: string): (n: nat)
    ensures n <= |s|
    ensures forall i :: 0 <= i < n ==> s[i] != '\n'
    ensures n == |s| || s[n] == '\n'
  {
    if s == [] || s[0] == '\n' then 0 else 1 + LineLength(s[1..])
  }

  /**
   * `BufRead::lines`: the text up to each line feed is a line, without one
   * carriage return before that line feed. The text after the last line
   * feed is a line only when it is not empty, so a final line feed does
   * not start an empty last line.
   */
  function Lines(s: string): (lines: seq<string>)
    ensures forall i :: 0 <= i < |lines| ==> '\n' !in lines[i]
    decreases |s|
  {
    var n := LineLength(s);
    if n == |s| then
      if s == [] then [] else assert '\n' !in s; [s]
    else
      var line := StripCarriageReturn(s[..n]);
      assert '\n' !in line by {
        assert forall c :: c in line ==> c in s[..n];
      }
      [line] + Lines(s[n + 1..])
  }

  /**
   * A line ended by a line feed is read as that line without one trailing
   * carriage return, and reading goes on after the line feed. With
   * `LinesWithoutLineFeed` for the text after the last line feed, this
   * fixes what `Lines` gives for every string.
   */
  lemma LinesLineFeed(x: string, rest: string)
    requires '\n' !in x
    ensures Lines(x + "\n" + rest) == [StripCarriageReturn(x)] + Lines(rest)
  {
    var s := x + "\n" + rest;
    assert forall i :: 0 <= i < |x| ==> s[i] == x[i];
    assert s[|x|] == '\n';
    assert s[..|x|] == x;
    assert s[|x| + 1..] == rest;
  }

  /**
   * Text without a line feed is one line, kept as it is even when it ends
   * in a carriage return, or no line at all when it is empty.
   */
  lemma LinesWithoutLineFeed(x: string)
    requires '\n' !in x
    ensures Lines(x) == if x == [] then [] else [x]
  {
  }

  /** A CRLF file, a final line without a line feed, and a lone carriage return at the end. */
  lemma LinesSamples()
    ensures Lines("a\r\nb") == ["a", "b"]
    ensures Lines("a\r") == ["a\r"]
    ensures Lines("\r\n") == [""]
  {
    assert "a\r\nb" == "a\r" + "\n" + "b";
    LinesLineFeed("a\r", "b");
    assert StripCarriageReturn("a\r") == "a";
    LinesWithoutLineFeed("b");
    LinesWithoutLineFeed("a\r");
    assert "\r\n" == "\r" + "\n" + "";
    LinesLineFeed("\r", "");
    LinesWithoutLineFeed("");
  }

  /** Each line followed by a line feed, as writing them one `writeln!` at a time produces. */
  function Unlines(lines: seq<string>): string {
    if lines == [] then [] else lines[0] + "\n" + Unlines(lines[1..])
  }

  /** A line `Lines` gives back unchanged: no line feed inside, no carriage return at the end. */
  predicate IsPlainLine(line: string) {
    '\n' !in line && (line == [] || line[|line| - 1] != '\r')
  }

  /** Reading back written lines gives the same lines. */
  lemma {:induction false} LinesUnlines(lines: seq<string>)
    requires forall i :: 0 <= i < |lines| ==> IsPlainLine(lines[i])
    ensures Lines(Unlines(lines)) == lines
    decreases |lines|
  {
    if lines == [] {
      LinesWithoutLineFeed([]);
    } else {
      assert IsPlainLine(lines[0]);
      LinesLineFeed(lines[0], Unlines(lines[1..]));
      LinesUnlines(lines[1..]);
      assert lines == [lines[0]] + lines[1..];
    }
  }

  /** A word of `split_whitespace`: non-empty and free of whitespace. */
  predicate IsWord(w: string) {
    w != [] && forall i :: 0 <= i < |w| ==> !IsWhitespace(w[i])
  }

  /** The length of the longest prefix of `s` without whitespace. */
  function WordLength(s: string): (n: nat)
    ensures n <= |s|
    ensures forall i :: 0 <= i < n ==> !IsWhitespace(s[i])
    ensures n == |s| || IsWhitespace(s[n])
  {
    if s == [] || IsWhitespace(s[0]) then 0 else 1 + WordLength(s[1..])
  }

  /**
   * `str::split_whitespace`: the maximal runs of non-whitespace
   * characters, in order. Every element is a word.
   */
  function SplitWhitespace(s: string): (words: seq<string>)
    ensures forall i :: 0 <= i < |words| ==> IsWord(words[i])
    decreases |s|
  {
    if s == [] then []
    else if IsWhitespace(s[0]) then SplitWhitespace(s[1..])
    else
      var n := WordLength(s);
      [s[..n]] + SplitWhitespace(s[n..])
  }

  /** `split_whitespace` yields nothing exactly when the text is blank. */
  lemma {:induction false} SplitWhitespaceEmptyIffBlank(s: string)
    ensures SplitWhitespace(s) == [] <==> AllWhitespace(s)
    decreases |s|
  {
    if s != [] && IsWhitespace(s[0]) {
      SplitWhitespaceEmptyIffBlank(s[1..]);
      assert AllWhitespace(s) <==> AllWhitespace(s[1..]) by {
        if AllWhitespace(s[1..]) {
          forall i | 0 <= i < |s| ensures IsWhitespace(s[i]) {
            if i > 0 {
              assert s[i] == s[1..][i - 1];
            }
          }
        }
      }
    }
  }

  /** A word followed by whitespace is split off as the first word. */
  lemma SplitWhitespaceLeadingWord(w: string, rest: string)
    requires IsWord(w)
    requires rest == [] || IsWhitespace(rest[0])
    ensures SplitWhitespace(w + rest) == [w] + SplitWhitespace(rest)
  {
    var s := w + rest;
    var n := WordLength(s);
    assert forall i :: 0 <= i < |w| ==> s[i] == w[i];
    assert rest != [] ==> s[|w|] == rest[0];
    assert s[..n] == w;
    assert s[n..] == rest;
    if rest != [] {
      assert rest == [rest[0]] + rest[1..];
    }
  }

  /** `split_whitespace` inverts joining words with single spaces. */
  lemma {:induction false} SplitWhitespaceJoin(words: seq<string>)
    requires forall i :: 0 <= i < |words| ==> IsWord(words[i])
    ensures SplitWhitespace(Join(words, ' ')) == words
    decreases |words|
  {
    if words == [] {
    } else if |words| == 1 {
      SplitWhitespaceLeadingWord(words[0], []);
      assert words[0] + [] == words[0];
    } else {
      SplitWhitespaceJoin(words[1..]);
      SplitWhitespaceJoinStep(words);
      assert words == [words[0]] + words[1..];
    }
  }

  /** Of several joined words, the first is split off first. */
  lemma SplitWhitespaceJoinStep(words: seq<string>)
    requires |words| > 1 && IsWord(words[0])
    ensures SplitWhitespace(Join(words, ' ')) == [words[0]] + SplitWhitespace(Join(words[1..], ' '))
  {
    var rest := Join(words[1..], ' ');
    var spaced := [' '] + rest;
    assert Join(words, ' ') == words[0] + spaced;
    SplitWhitespaceLeadingWord(words[0], spaced);
    assert spaced[1..] == rest;
    assert SplitWhitespace(spaced) == SplitWhitespace(rest);
  }

  /** A prefix without whitespace keeps its length when anything starting with whitespace follows it. */
  lemma WordLengthAppend(a: string, t: string)
    requires WordLength(a) < |a| || t == [] || IsWhitespace(t[0])
    ensures WordLength(a + t) == WordLength(a)
  {
    var n := WordLength(a);
    assert forall i :: 0 <= i < |a| ==> (a + t)[i] == a[i];
    assert n == |a| && t != [] ==> (a + t)[n] == t[0];
  }

  /** Splitting at any whitespace character splits the two sides independently. */
  lemma {:induction false} SplitWhitespaceAtWhitespace(a: string, c: char, b: string)
    requires IsWhitespace(c)
    ensures SplitWhitespace(a + [c] + b) == SplitWhitespace(a) + SplitWhitespace(b)
    decreases |a|
  {
    if a == [] {
      assert (a + [c] + b)[1..] == b;
    } else if IsWhitespace(a[0]) {
      assert (a + [c] + b)[1..] == a[1..] + [c] + b;
      SplitWhitespaceAtWhitespace(a[1..], c, b);
    } else {
      var n := WordLength(a);
      SplitWhitespaceAtWhitespace(a[n..], c, b);
      WordAtWhitespace(a, c, b);
    }
  }

  /** The first word of `a` is also the first word of `a + [c] + b` when `c` is whitespace. */
  lemma WordAtWhitespace(a: string, c: char, b: string)
    requires a != [] && !IsWhitespace(a[0]) && IsWhitespace(c)
    ensures SplitWhitespace(a + [c] + b)
         == [a[..WordLength(a)]] + SplitWhitespace(a[WordLength(a)..] + [c] + b)
  {
    var s := a + [c] + b;
    var n := WordLength(a);
    assert s == a + ([c] + b);
    WordLengthAppend(a, [c] + b);
    assert s[..n] == a[..n];
    assert s[n..] == a[n..] + [c] + b;
  }

  /** Two one-letter words around any whitespace character split apart. */
  lemma SplitWhitespaceTwoLetters(c: char)
    requires IsWhitespace(c)
    ensures SplitWhitespace("a" + [c] + "b") == ["a", "b"]
  {
    SplitWhitespaceLeadingWord("a", []);
    SplitWhitespaceLeadingWord("b", []);
    assert "a" + [] == "a" && "b" + [] == "b";
    SplitWhitespaceAtWhitespace("a", c, "b");
  }

  /** A tab, a line feed and an ideographic space separate words just as a space does. */
  lemma SplitWhitespaceSamples()
    ensures SplitWhitespace("a\tb") == ["a", "b"]
    ensures SplitWhitespace("a\nb") == ["a", "b"]
    ensures SplitWhitespace("a\U{3000}b") == ["a", "b"]
  {
    assert "a\tb" == "a" + ['\t'] + "b";
    SplitWhitespaceTwoLetters('\t');
    assert "a\nb" == "a" + ['\n'] + "b";
    SplitWhitespaceTwoLetters('\n');
    assert "a\U{3000}b" == "a" + ['\U{3000}'] + "b";
    SplitWhitespaceTwoLetters('\U{3000}');
  }
}
