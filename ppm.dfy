/**
  `read_ppm`: the reader of the renderer's PPM output. The file is given as
  the lines `readline` yields, in order, each with its line terminator; a
  `readline` past the end yields the empty string.

  The reader strips and checks the format tag (P3 or P6), skips comment lines
  before the dimensions, reads exactly two integers, requires a maximum value
  of 255, and for P3 collects the integers of every non-comment body line,
  which must all be byte values. For P6 the rest of the file is returned as
  text. The string operations follow Python's `str.strip`, `str.split`,
  `str.startswith` and `int` on such strings.
 */
module Ppm {

  import opened Vectors

  type byte = b: int | 0 <= b < 256

  /** The `ValueError`s `read_ppm` can raise, by cause. */
  datatype PpmError =
    | UnsupportedFormat(header: string)
    | InvalidLiteral(token: string)
    | NotEnoughValues
    | TooManyValues
    | UnsupportedMaxValue(maxVal: int)
    | ByteOutOfRange

  datatype Result<T> = Ok(value: T) | Err(error: PpmError)

  /** The pixel data: bytes for P3, the unread rest of the text for P6. */
  datatype PixelData = Bytes(data: seq<byte>) | Text(text: string)

  datatype Image = Image(width: int, height: int, pixels: PixelData)

  // ---------------------------------------------------------------------
  // Python string operations

  /** `str.isspace` for one character: the characters `split` and `strip` treat as whitespace. */
  predicate IsSpace(c: char)
  {
    || '\t' <= c <= '\r'
    || '\U{001C}' <= c <= '\U{001F}'
    || c == ' ' || c == '\U{0085}' || c == '\U{00A0}' || c == '\U{1680}'
    || '\U{2000}' <= c <= '\U{200A}'
    || c == '\U{2028}' || c == '\U{2029}' || c == '\U{202F}' || c == '\U{205F}' || c == '\U{3000}'
  }

  predicate NoSpace(s: string)
  {
    forall k :: 0 <= k < |s| ==> !IsSpace(s[k])
  }

  /** `str.startswith` with a one-character prefix. */
  predicate StartsWith(s: string, c: char)
  {
    |s| > 0 && s[0] == c
  }

  /** `str.lstrip()`: the suffix left after removing leading whitespace. */
  function TrimStart(s: string): (t: string)
    ensures |t| <= |s|
    decreases |s|
  {
    if |s| > 0 && IsSpace(s[0]) then TrimStart(s[1..]) else s
  }

  /** `lstrip` removes a run of whitespace from the front and stops at the first other character. */
  lemma {:induction false} TrimStartSpec(s: string)
    ensures var t := TrimStart(s);
      && |t| <= |s| && t == s[|s| - |t|..]
      && (|t| > 0 ==> !IsSpace(t[0]))
      && forall k :: 0 <= k < |s| - |t| ==> IsSpace(s[k])
    decreases |s|
  {
    if |s| > 0 && IsSpace(s[0]) {
      var t := TrimStart(s);
      TrimStartSpec(s[1..]);
      assert s[1..][|s| - 1 - |t|..] == s[|s| - |t|..];
      forall k | 1 <= k < |s| - |t|
        ensures IsSpace(s[k])
      {
        assert s[k] == s[1..][k - 1];
      }
    }
  }

  /** `str.rstrip()`: the prefix left after removing trailing whitespace. */
  function TrimEnd(s: string): string
    decreases |s|
  {
    if |s| > 0 && IsSpace(s[|s| - 1]) then TrimEnd(s[..|s| - 1]) else s
  }

  /** `rstrip` removes a run of whitespace from the end and stops at the last other character. */
  lemma {:induction false} TrimEndSpec(s: string)
    ensures var t := TrimEnd(s);
      && |t| <= |s| && t == s[..|t|]
      && (|t| > 0 ==> !IsSpace(t[|t| - 1]))
      && forall k :: |t| <= k < |s| ==> IsSpace(s[k])
    decreases |s|
  {
    if |s| > 0 && IsSpace(s[|s| - 1]) {
      var t := TrimEnd(s);
      TrimEndSpec(s[..|s| - 1]);
      assert s[..|s| - 1][..|t|] == s[..|t|];
      forall k | |t| <= k < |s| - 1
        ensures IsSpace(s[k])
      {
        assert s[k] == s[..|s| - 1][k];
      }
    }
  }

  /** `str.strip()`. */
  function Strip(s: string): (t: string)
  {
    TrimEnd(TrimStart(s))
  }

  /** Whitespace at the end of a suffix of s is whitespace at the end of s. */
  lemma SuffixSpace(s: string, i: nat, j: nat)
    requires i <= |s| && forall k :: j <= k < |s| - i ==> IsSpace(s[i..][k])
    ensures forall k :: i + j <= k < |s| ==> IsSpace(s[k])
  {
    forall k | i + j <= k < |s|
      ensures IsSpace(s[k])
    {
      assert s[k] == s[i..][k - i];
    }
  }

  /** `strip` returns a slice of its input starting where `lstrip` stops. */
  lemma StripSlice(s: string)
    ensures var t := Strip(s); var i := |s| - |TrimStart(s)|;
      i + |t| <= |s| && t == s[i..i + |t|]
  {
    var u := TrimStart(s);
    var i := |s| - |u|;
    TrimStartSpec(s);
    var t := TrimEnd(u);
    TrimEndSpec(u);
    PrefixOfSuffix(s, i, |t|);
  }

  /** A prefix of a suffix is a slice. */
  lemma PrefixOfSuffix(s: string, i: nat, n: nat)
    requires i + n <= |s|
    ensures s[i..][..n] == s[i..i + n]
  {
  }

  /** What `strip` returns neither starts nor ends with whitespace. */
  lemma StripEnds(s: string)
    ensures var t := Strip(s);
      |t| > 0 ==> !IsSpace(t[0]) && !IsSpace(t[|t| - 1])
  {
    var u := TrimStart(s);
    var t := TrimEnd(u);
    TrimStartSpec(s);
    TrimEndSpec(u);
    if |t| > 0 {
      assert t[0] == u[0];
    }
  }

  /**
    What `strip` returns is the string with exactly its whitespace ends cut
    off: the piece from the first non-whitespace character on, which neither
    starts nor ends with whitespace, with only whitespace around it.
   */
  lemma StripSpec(s: string)
    ensures var t := Strip(s); var i := |s| - |TrimStart(s)|;
      && i + |t| <= |s| && t == s[i..i + |t|]
      && (forall k :: 0 <= k < i ==> IsSpace(s[k]))
      && (forall k :: i + |t| <= k < |s| ==> IsSpace(s[k]))
      && (|t| > 0 ==> !IsSpace(t[0]) && !IsSpace(t[|t| - 1]))
  {
    var u := TrimStart(s);
    var i := |s| - |u|;
    StripSlice(s);
    StripEnds(s);
    TrimStartSpec(s);
    TrimEndSpec(u);
    assert u == s[i..];
    SuffixSpace(s, i, |Strip(s)|);
  }

  /** A line ending in a terminator strips to its content when that has no whitespace ends. */
  lemma StripLine(t: string, end: string)
    requires |t| > 0 && !IsSpace(t[0]) && !IsSpace(t[|t| - 1])
    requires forall k :: 0 <= k < |end| ==> IsSpace(end[k])
    ensures Strip(t + end) == t
  {
    var line := t + end;
    assert TrimStart(line) == line;
    var r := TrimEnd(line);
    TrimEndSpec(line);
    assert !IsSpace(line[|t| - 1]);
    assert |r| >= |t|;
    assert forall k :: |t| <= k < |line| ==> IsSpace(line[k]) by {
      forall k | |t| <= k < |line|
        ensures IsSpace(line[k])
      {
        assert line[k] == end[k - |t|];
      }
    }
    assert |r| <= |t|;
    assert r == line[..|t|] == t;
  }

  /** The length of the run of non-whitespace characters that starts s. */
  function TokenLength(s: string): (n: nat)
    ensures n <= |s|
    decreases |s|
  {
    if |s| == 0 || IsSpace(s[0]) then 0 else 1 + TokenLength(s[1..])
  }

  /** The run is maximal: no whitespace inside it, whitespace (or the end) right after it. */
  lemma {:induction false} TokenLengthSpec(s: string)
    ensures var n := TokenLength(s);
      && (forall k :: 0 <= k < n ==> !IsSpace(s[k]))
      && (n < |s| ==> IsSpace(s[n]))
    decreases |s|
  {
    if |s| > 0 && !IsSpace(s[0]) {
      TokenLengthSpec(s[1..]);
      forall k | 1 <= k < TokenLength(s)
        ensures !IsSpace(s[k])
      {
        assert s[k] == s[1..][k - 1];
      }
      assert TokenLength(s) < |s| ==> s[TokenLength(s)] == s[1..][TokenLength(s) - 1];
    }
  }

  /** `str.split()`: the maximal runs of non-whitespace characters, in order. */
  function Split(s: string): (tokens: seq<string>)
    decreases |s|
  {
    if |s| == 0 then []
    else if IsSpace(s[0]) then Split(s[1..])
    else
      var n := TokenLength(s);
      [s[..n]] + Split(s[n..])
  }

  /** Non-empty strings without whitespace, as `split` returns them. */
  predicate Words(tokens: seq<string>)
  {
    forall k :: 0 <= k < |tokens| ==> |tokens[k]| > 0 && NoSpace(tokens[k])
  }

  /** Every token `split` returns is non-empty and free of whitespace. */
  lemma {:induction false} SplitTokens(s: string)
    ensures Words(Split(s))
    decreases |s|
  {
    if |s| > 0 {
      if IsSpace(s[0]) {
        SplitTokens(s[1..]);
        assert Split(s) == Split(s[1..]);
      } else {
        var n := TokenLength(s);
        assert n >= 1;
        TokenLengthSpec(s);
        SplitTokens(s[n..]);
        var token := s[..n];
        assert NoSpace(token) by {
          forall k | 0 <= k < |token|
            ensures !IsSpace(token[k])
          {
            assert token[k] == s[k];
          }
        }
        PrependTokens(token, Split(s[n..]));
      }
    }
  }

  /** A non-empty whitespace-free token in front of such tokens keeps them all so. */
  lemma PrependTokens(token: string, tokens: seq<string>)
    requires |token| > 0 && NoSpace(token) && Words(tokens)
    ensures Words([token] + tokens)
  {
    var all := [token] + tokens;
    forall k | 0 <= k < |all|
      ensures |all[k]| > 0 && NoSpace(all[k])
    {
      if k > 0 {
        assert all[k] == tokens[k - 1];
      }
    }
  }

  /** A sequence is its first element followed by the rest. */
  lemma FirstRest<T>(xs: seq<T>)
    requires |xs| > 0
    ensures [xs[0]] + xs[1..] == xs
  {
  }

  /** The same, with more elements after. */
  lemma HeadTail<T>(xs: seq<T>, ys: seq<T>)
    requires |xs| > 0
    ensures [xs[0]] + (xs[1..] + ys) == xs + ys
  {
  }

  /** A string made only of whitespace splits into nothing. */
  lemma {:induction false} SplitBlank(s: string)
    requires forall k :: 0 <= k < |s| ==> IsSpace(s[k])
    ensures Split(s) == []
    decreases |s|
  {
    if |s| > 0 {
      SplitBlank(s[1..]);
    }
  }

  /** A token followed by whitespace (or nothing) is split off whole. */
  lemma {:induction false} TokenLengthOf(t: string, rest: string)
    requires NoSpace(t)
    requires |rest| == 0 || IsSpace(rest[0])
    ensures TokenLength(t + rest) == |t|
    decreases |t|
  {
    if |t| > 0 {
      assert (t + rest)[1..] == t[1..] + rest;
      TokenLengthOf(t[1..], rest);
    } else {
      assert t + rest == rest;
    }
  }

  /** The words joined with single spaces, as a writer lays them out on a line. */
  function Unwords(words: seq<string>): string
  {
    if |words| == 0 then "" else if |words| == 1 then words[0] else words[0] + " " + Unwords(words[1..])
  }

  /** A leading token is split off whole when whitespace (or nothing) follows it. */
  lemma SplitToken(t: string, rest: string)
    requires |t| > 0 && NoSpace(t)
    requires |rest| == 0 || IsSpace(rest[0])
    ensures Split(t + rest) == [t] + Split(rest)
  {
    TokenLengthOf(t, rest);
    assert (t + rest)[..|t|] == t;
    assert (t + rest)[|t|..] == rest;
  }

  lemma SplitSpace(s: string)
    ensures Split(" " + s) == Split(s)
  {
    assert (" " + s)[1..] == s;
  }

  /** The inductive step of `SplitUnwords`: one more word in front. */
  lemma SplitUnwordsStep(words: seq<string>, tail: string)
    requires |words| > 1 && |words[0]| > 0 && NoSpace(words[0])
    requires |tail| == 0 || IsSpace(tail[0])
    requires Split(Unwords(words[1..]) + tail) == words[1..] + Split(tail)
    ensures Split(Unwords(words) + tail) == words + Split(tail)
  {
    var t, u := words[0], Unwords(words[1..]);
    var after := u + tail;
    assert Unwords(words) == t + " " + u;
    ConcatAssoc(t, " ", u, tail);
    SplitToken(t, " " + after);
    SplitSpace(after);
    HeadTail(words, Split(tail));
  }

  /** Splitting undoes joining with spaces, whatever whitespace-led text follows. */
  lemma {:induction false} SplitUnwords(words: seq<string>, tail: string)
    requires forall k :: 0 <= k < |words| ==> |words[k]| > 0 && NoSpace(words[k])
    requires |tail| == 0 || IsSpace(tail[0])
    ensures Split(Unwords(words) + tail) == words + Split(tail)
    decreases |words|
  {
    if |words| == 1 {
      SplitToken(words[0], tail);
    } else if |words| > 1 {
      SplitUnwords(words[1..], tail);
      SplitUnwordsStep(words, tail);
    } else {
      assert Unwords(words) + tail == tail;
    }
  }

  // ---------------------------------------------------------------------
  // Python int() on a stripped string, base 10

  predicate IsDigit(c: char)
  {
    '0' <= c <= '9'
  }

  function DigitValue(c: char): nat
    requires IsDigit(c)
  {
    (c as int) - ('0' as int)
  }

  /**
    The digit part `int` accepts: ASCII digits, with single underscores
    allowed between two digits.
   */
  predicate ValidDigits(s: string)
  {
    && |s| > 0 && IsDigit(s[0]) && IsDigit(s[|s| - 1])
    && DigitChars(s)
    && forall k :: 0 <= k < |s| - 1 && s[k] == '_' ==> IsDigit(s[k + 1])
  }

  predicate DigitChars(s: string)
  {
    forall k :: 0 <= k < |s| ==> IsDigit(s[k]) || s[k] == '_'
  }

  /** The number the digits spell, underscores ignored. */
  function DigitsValue(s: string): nat
    requires DigitChars(s)
    decreases |s|
  {
    if |s| == 0 then 0
    else if s[|s| - 1] == '_' then DigitsValue(s[..|s| - 1])
    else DigitsValue(s[..|s| - 1]) * 10 + DigitValue(s[|s| - 1])
  }

  /** `int(s)`: an optional sign, then valid digits; anything else is None (a `ValueError`). */
  function ParseInt(s: string): Option<int>
  {
    var body := if |s| > 0 && (s[0] == '+' || s[0] == '-') then s[1..] else s;
    if !ValidDigits(body) then None
    else
      var magnitude: int := DigitsValue(body);
      Some(if |s| > 0 && s[0] == '-' then -magnitude else magnitude)
  }

  /** Python's `int` accepts a sign, leading zeros and single underscores between digits. */
  lemma ParseIntAccepts()
    ensures ParseInt("-12") == Some(-12)
    ensures ParseInt("+007") == Some(7)
    ensures ParseInt("1_000") == Some(1000)
  {
    assert "12"[..1] == "1";
    assert "-12"[1..] == "12";
    assert DigitsValue("12") == 12;
    assert "+007"[1..] == "007" && "007"[..2] == "00" && "00"[..1] == "0";
    assert "1_000"[..4] == "1_00" && "1_00"[..3] == "1_0" && "1_0"[..2] == "1_" && "1_"[..1] == "1";
  }

  /** Doubled, leading or trailing underscores, an empty string and a lone sign are refused. */
  lemma ParseIntRejects()
    ensures ParseInt("1__0") == None && ParseInt("_1") == None && ParseInt("1_") == None
    ensures ParseInt("") == None && ParseInt("-") == None
  {
    assert "1__0"[1] == '_' && !IsDigit("1__0"[2]);
    assert "-"[1..] == "";
  }

  /** `str(n)` for a natural number: its decimal digits, most significant first. */
  function ShowNat(n: nat): (s: string)
    ensures |s| > 0
    ensures forall k :: 0 <= k < |s| ==> IsDigit(s[k])
    decreases n
  {
    if n < 10 then [('0' as int + n) as char]
    else ShowNat(n / 10) + [('0' as int + n % 10) as char]
  }

  /** `str(n)`: a minus sign before negative numbers. */
  function ShowInt(n: int): (s: string)
    ensures |s| > 0 && NoSpace(s) && !IsSpace(s[0]) && !IsSpace(s[|s| - 1])
    ensures s[0] != '#'
  {
    if n < 0 then "-" + ShowNat(-n) else ShowNat(n)
  }

  lemma {:induction false} ShowNatValue(n: nat)
    ensures DigitsValue(ShowNat(n)) == n
    decreases n
  {
    if n >= 10 {
      var s := ShowNat(n);
      ShowNatValue(n / 10);
      assert s[..|s| - 1] == ShowNat(n / 10);
    }
  }

  /** `int(str(n)) == n`. */
  lemma ParseShowInt(n: int)
    ensures ParseInt(ShowInt(n)) == Some(n)
  {
    var s := ShowInt(n);
    if n < 0 {
      ShowNatValue(-n);
      assert s[1..] == ShowNat(-n);
    } else {
      ShowNatValue(n);
    }
  }

  // ---------------------------------------------------------------------
  // read_ppm

  /** `f.readline()` when n lines have been consumed. */
  function ReadLine(lines: seq<string>, n: nat): string
  {
    if n < |lines| then lines[n] else ""
  }

  /** `f.read()` when n lines have been consumed: all that is left. */
  function Remainder(lines: seq<string>, n: nat): string
    decreases |lines| - n
  {
    if n < |lines| then lines[n] + Remainder(lines, n + 1) else ""
  }

  /** Line m, once stripped, starts with `#`. */
  predicate IsComment(lines: seq<string>, m: nat)
  {
    StartsWith(Strip(ReadLine(lines, m)), '#')
  }

  /**
    The index of the dimensions line: the first line from n on that does
    not start with `#` once stripped. Only lines that exist can start with
    `#`, so the search stops at the end of the file at the latest.
   */
  function DimensionsLine(lines: seq<string>, n: nat): (d: nat)
    ensures n <= d
    ensures !StartsWith(Strip(ReadLine(lines, d)), '#')
    ensures forall m :: n <= m < d ==> IsComment(lines, m)
    decreases |lines| - n
  {
    if n < |lines| && StartsWith(Strip(lines[n]), '#') then DimensionsLine(lines, n + 1) else n
  }

  /** A comment line is a line of the file: past the end `readline` yields no `#`. */
  lemma CommentLine(lines: seq<string>, n: nat)
    requires StartsWith(Strip(ReadLine(lines, n)), '#')
    ensures n < |lines| && DimensionsLine(lines, n) == DimensionsLine(lines, n + 1)
  {
  }

  /**
    `width, height = map(int, tokens)`: the first token is converted before
    the count is checked, the second likewise, and with a third token it is
    converted before the unpacking fails for too many values.
   */
  function ParseDimensions(tokens: seq<string>): (r: Result<(int, int)>)
    ensures r.Ok? <==> |tokens| == 2 && ParseInt(tokens[0]).Some? && ParseInt(tokens[1]).Some?
    ensures r.Ok? ==> r.value == (ParseInt(tokens[0]).value, ParseInt(tokens[1]).value)
    ensures r == Err(NotEnoughValues) ==> |tokens| < 2
    ensures r == Err(TooManyValues) ==> |tokens| > 2
  {
    if |tokens| == 0 then Err(NotEnoughValues)
    else match ParseInt(tokens[0])
      case None => Err(InvalidLiteral(tokens[0]))
      case Some(w) =>
        if |tokens| == 1 then Err(NotEnoughValues)
        else match ParseInt(tokens[1])
          case None => Err(InvalidLiteral(tokens[1]))
          case Some(h) =>
            if |tokens| == 2 then Ok((w, h))
            else if ParseInt(tokens[2]).None? then Err(InvalidLiteral(tokens[2]))
            else Err(TooManyValues)
  }

  /** `list(map(int, tokens))`: the values in order, or the first token that is not an integer. */
  function ParseInts(tokens: seq<string>): Result<seq<int>>
    decreases |tokens|
  {
    if |tokens| == 0 then Ok([])
    else match ParseInt(tokens[0])
      case None => Err(InvalidLiteral(tokens[0]))
      case Some(v) =>
        match ParseInts(tokens[1..])
        case Err(e) => Err(e)
        case Ok(vs) => Ok([v] + vs)
  }

  /**
    The conversion succeeds exactly when every token is an integer, and then
    yields their values in order; otherwise it reports a token that is not.
   */
  lemma {:induction false} ParseIntsSpec(tokens: seq<string>)
    ensures var r := ParseInts(tokens);
      && (r.Ok? <==> forall k :: 0 <= k < |tokens| ==> ParseInt(tokens[k]).Some?)
      && (r.Ok? ==> |r.value| == |tokens| && forall k :: 0 <= k < |tokens| ==> ParseInt(tokens[k]) == Some(r.value[k]))
      && (r.Err? ==> exists k :: 0 <= k < |tokens| && ParseInt(tokens[k]) == None && r.error == InvalidLiteral(tokens[k]))
    decreases |tokens|
  {
    if |tokens| > 0 {
      var head, rest := tokens[0], tokens[1..];
      ParseIntsSpec(rest);
      var r := ParseInts(tokens);
      if ParseInt(head).None? {
        assert r.error == InvalidLiteral(tokens[0]);
      } else if ParseInts(rest).Err? {
        var k :| 0 <= k < |rest| && ParseInt(rest[k]) == None && r.error == InvalidLiteral(rest[k]);
        assert rest[k] == tokens[k + 1];
      } else {
        var vs := ParseInts(rest).value;
        assert r.value == [ParseInt(head).value] + vs;
        forall k | 0 <= k < |tokens|
          ensures ParseInt(tokens[k]) == Some(r.value[k])
        {
          if k > 0 {
            assert tokens[k] == rest[k - 1];
          }
        }
      }
    }
  }

  /** Puts values in front of a successful result; an error is passed on. */
  function Prepend(values: seq<int>, r: Result<seq<int>>): Result<seq<int>>
  {
    match r
    case Ok(rest) => Ok(values + rest)
    case Err(e) => Err(e)
  }

  lemma PrependAssoc(a: seq<int>, b: seq<int>, r: Result<seq<int>>)
    ensures Prepend(a, Prepend(b, r)) == Prepend(a + b, r)
    ensures Prepend([], r) == r
  {
    if r.Ok? {
      assert a + (b + r.value) == (a + b) + r.value;
      assert [] + r.value == r.value;
    }
  }

  /**
    The P3 body loop from line n on: lines starting with `#` (unstripped)
    are skipped, the integers of every other line are appended in order,
    and the first line with a token that is not an integer stops the read.
   */
  function ParseBody(lines: seq<string>, n: nat): Result<seq<int>>
    decreases |lines| - n
  {
    if n >= |lines| then Ok([])
    else if StartsWith(lines[n], '#') then ParseBody(lines, n + 1)
    else match ParseInts(Split(lines[n]))
      case Err(e) => Err(e)
      case Ok(values) => Prepend(values, ParseBody(lines, n + 1))
  }

  predicate AllBytes(values: seq<int>)
  {
    forall k :: 0 <= k < |values| ==> 0 <= values[k] < 256
  }

  /** `bytes(values)` once every value is known to be in range. */
  function ToBytes(values: seq<int>): (b: seq<byte>)
    requires AllBytes(values)
    ensures |b| == |values| && forall k :: 0 <= k < |b| ==> b[k] == values[k]
  {
    seq(|values|, k requires 0 <= k < |values| => values[k] as byte)
  }

  /**
    The whole of `read_ppm`, in the order its checks run: the format tag,
    the dimensions after the comments, the maximum value, then for P3 every
    body integer before the byte range, and for P6 the rest as text.
   */
  function ParsePpm(lines: seq<string>): (r: Result<Image>)
  {
    var header := Strip(ReadLine(lines, 0));
    if header != "P3" && header != "P6" then Err(UnsupportedFormat(header))
    else ParseDimensionsLine(lines, header == "P3", DimensionsLine(lines, 1))
  }

  /** Only a P3 or P6 tag reads successfully: P3 gives bytes, P6 gives text. */
  lemma ParsePpmFormat(lines: seq<string>)
    ensures var r := ParsePpm(lines); var header := Strip(ReadLine(lines, 0));
      && (r.Ok? ==> header == "P3" || header == "P6")
      && (r.Ok? && header == "P3" ==> r.value.pixels.Bytes?)
      && (r.Ok? && header == "P6" ==> r.value.pixels.Text?)
  {
  }

  /** From the dimensions line d on; `ascii` tells P3 from P6. */
  function ParseDimensionsLine(lines: seq<string>, ascii: bool, d: nat): (r: Result<Image>)
    ensures r.Ok? ==> (ascii <==> r.value.pixels.Bytes?)
  {
    match ParseDimensions(Split(Strip(ReadLine(lines, d))))
    case Err(e) => Err(e)
    case Ok(dims) => ParseMaxValue(lines, ascii, dims.0, dims.1, d + 1)
  }

  /** From the maximum-value line m on. */
  function ParseMaxValue(lines: seq<string>, ascii: bool, width: int, height: int, m: nat): (r: Result<Image>)
    ensures r.Ok? ==> (ascii <==> r.value.pixels.Bytes?)
    ensures r.Ok? ==> r.value.width == width && r.value.height == height
  {
    var maxLine := Strip(ReadLine(lines, m));
    match ParseInt(maxLine)
    case None => Err(InvalidLiteral(maxLine))
    case Some(maxVal) =>
      if maxVal != 255 then Err(UnsupportedMaxValue(maxVal))
      else if ascii then ParsePixels(ParseBody(lines, m + 1), width, height)
      else Ok(Image(width, height, Text(Remainder(lines, m + 1))))
  }

  /** `bytes(pixel_data)`: every value must be a byte. */
  function ParsePixels(body: Result<seq<int>>, width: int, height: int): (r: Result<Image>)
    ensures r.Ok? ==> body.Ok? && r.value.width == width && r.value.height == height
    ensures r.Ok? ==> r.value.pixels.Bytes? && r.value.pixels.data == body.value
  {
    match body
    case Err(e) => Err(e)
    case Ok(values) =>
      if AllBytes(values) then Ok(Image(width, height, Bytes(ToBytes(values))))
      else Err(ByteOutOfRange)
  }

  /**
    `read_ppm` step by step: a `while` loop over comment lines before the
    dimensions and a `for` loop over the body lines that extends the list of
    integers, then the conversion to bytes.
   */
  method ReadPpm(lines: seq<string>) returns (res: Result<Image>)
    ensures res == ParsePpm(lines)
  {
    var header := Strip(ReadLine(lines, 0));
    if header != "P3" && header != "P6" {
      return Err(UnsupportedFormat(header));
    }
    var consumed := 1;
    var dimensions := Strip(ReadLine(lines, consumed));
    consumed := consumed + 1;
    while StartsWith(dimensions, '#')
      invariant 2 <= consumed
      invariant dimensions == Strip(ReadLine(lines, consumed - 1))
      invariant DimensionsLine(lines, 1) == DimensionsLine(lines, consumed - 1)
      decreases |lines| + 1 - consumed
    {
      CommentLine(lines, consumed - 1);
      dimensions := Strip(ReadLine(lines, consumed));
      consumed := consumed + 1;
    }
    assert DimensionsLine(lines, 1) == consumed - 1;
    assert ParsePpm(lines) == ParseDimensionsLine(lines, header == "P3", consumed - 1);
    var dims := ParseDimensions(Split(dimensions));
    if dims.Err? {
      return Err(dims.error);
    }
    var width, height := dims.value.0, dims.value.1;
    assert ParsePpm(lines) == ParseMaxValue(lines, header == "P3", width, height, consumed);
    var maxLine := Strip(ReadLine(lines, consumed));
    consumed := consumed + 1;
    var maxVal := ParseInt(maxLine);
    if maxVal.None? {
      return Err(InvalidLiteral(maxLine));
    }
    if maxVal.value != 255 {
      return Err(UnsupportedMaxValue(maxVal.value));
    }
    if header == "P6" {
      return Ok(Image(width, height, Text(Remainder(lines, consumed))));
    }
    assert ParsePpm(lines) == ParsePixels(ParseBody(lines, consumed), width, height);
    var body := ReadBody(lines, consumed);
    if body.Err? {
      return Err(body.error);
    }
    var pixelData := body.value;
    if !AllBytes(pixelData) {
      return Err(ByteOutOfRange);
    }
    return Ok(Image(width, height, Bytes(ToBytes(pixelData))));
  }

  /**
    The `for line in f` loop of the P3 branch from line `start` on: comment
    lines are skipped and the integers of the others extend `pixel_data`.
   */
  method ReadBody(lines: seq<string>, start: nat) returns (res: Result<seq<int>>)
    ensures res == ParseBody(lines, start)
  {
    var pixelData: seq<int> := [];
    PrependAssoc([], [], ParseBody(lines, start));
    var n := start;
    while n < |lines|
      invariant start <= n
      invariant ParseBody(lines, start) == Prepend(pixelData, ParseBody(lines, n))
      decreases |lines| - n
    {
      var line := lines[n];
      n := n + 1;
      if StartsWith(line, '#') {
        continue;
      }
      var values := ParseInts(Split(line));
      if values.Err? {
        return Err(values.error);
      }
      PrependAssoc(pixelData, values.value, ParseBody(lines, n));
      pixelData := pixelData + values.value;
    }
    assert pixelData + [] == pixelData;
    return Ok(pixelData);
  }

  /** A file that does not start with P3 or P6 is refused with the stripped tag. */
  lemma UnsupportedHeader(lines: seq<string>)
    requires Strip(ReadLine(lines, 0)) !in {"P3", "P6"}
    ensures ParsePpm(lines) == Err(UnsupportedFormat(Strip(ReadLine(lines, 0))))
  {
  }

  /** A header followed by a wrong maximum value is refused with that value. */
  lemma UnsupportedMax(lines: seq<string>, d: nat, maxVal: int)
    requires Strip(ReadLine(lines, 0)) in {"P3", "P6"}
    requires d == DimensionsLine(lines, 1)
    requires ParseDimensions(Split(Strip(ReadLine(lines, d)))).Ok?
    requires ParseInt(Strip(ReadLine(lines, d + 1))) == Some(maxVal) && maxVal != 255
    ensures ParsePpm(lines) == Err(UnsupportedMaxValue(maxVal))
  {
    var ascii := Strip(ReadLine(lines, 0)) == "P3";
    TagStage(lines);
    DimensionsStage(lines, ascii, d);
    var dims := ParseDimensions(Split(Strip(ReadLine(lines, d)))).value;
    WrongMaxValue(lines, ascii, dims.0, dims.1, d + 1, maxVal);
  }

  /** An accepted tag hands over to the dimensions line. */
  lemma TagStage(lines: seq<string>)
    requires Strip(ReadLine(lines, 0)) in {"P3", "P6"}
    ensures ParsePpm(lines) == ParseDimensionsLine(lines, Strip(ReadLine(lines, 0)) == "P3", DimensionsLine(lines, 1))
  {
  }

  /** Readable dimensions hand over to the maximum-value line after them. */
  lemma DimensionsStage(lines: seq<string>, ascii: bool, d: nat)
    requires ParseDimensions(Split(Strip(ReadLine(lines, d)))).Ok?
    ensures var dims := ParseDimensions(Split(Strip(ReadLine(lines, d)))).value;
      ParseDimensionsLine(lines, ascii, d) == ParseMaxValue(lines, ascii, dims.0, dims.1, d + 1)
  {
  }

  /** The maximum-value stage refuses any value other than 255. */
  lemma WrongMaxValue(lines: seq<string>, ascii: bool, width: int, height: int, m: nat, maxVal: int)
    requires ParseInt(Strip(ReadLine(lines, m))) == Some(maxVal) && maxVal != 255
    ensures ParseMaxValue(lines, ascii, width, height, m) == Err(UnsupportedMaxValue(maxVal))
  {
  }

  // ---------------------------------------------------------------------
  // The P3 text the renderer writes, and the round trip

  datatype Rgb = Rgb(r: byte, g: byte, b: byte)

  /** One line per pixel: its three channels separated by spaces. */
  function PixelLines(pixels: seq<Rgb>): (lines: seq<string>)
    ensures |lines| == |pixels|
  {
    if |pixels| == 0 then []
    else [Unwords([ShowInt(pixels[0].r), ShowInt(pixels[0].g), ShowInt(pixels[0].b)]) + "\n"] + PixelLines(pixels[1..])
  }

  /** The channels of the pixels in order. */
  function Channels(pixels: seq<Rgb>): (b: seq<byte>)
    ensures |b| == 3 * |pixels|
  {
    if |pixels| == 0 then [] else [pixels[0].r, pixels[0].g, pixels[0].b] + Channels(pixels[1..])
  }

  /** The P3 file the renderer emits: the tag, the dimensions, 255, then the pixels row-major. */
  function PpmLines(width: int, height: int, pixels: seq<Rgb>): seq<string>
  {
    ["P3\n", Unwords([ShowInt(width), ShowInt(height)]) + "\n", "255\n"] + PixelLines(pixels)
  }

  function ShowAll(values: seq<int>): (words: seq<string>)
    ensures |words| == |values| && forall k :: 0 <= k < |values| ==> words[k] == ShowInt(values[k])
  {
    seq(|values|, k requires 0 <= k < |values| => ShowInt(values[k]))
  }

  lemma ShowAllTail(values: seq<int>)
    requires |values| > 0
    ensures ShowAll(values)[1..] == ShowAll(values[1..])
  {
  }

  /** Integers written in decimal parse back as themselves, in order. */
  lemma {:induction false} ParseShown(values: seq<int>)
    ensures ParseInts(ShowAll(values)) == Ok(values)
    decreases |values|
  {
    if |values| > 0 {
      var words := ShowAll(values);
      ParseShowInt(values[0]);
      ShowAllTail(values);
      ParseShown(values[1..]);
      assert words[0] == ShowInt(values[0]);
      assert ParseInts(words) == Ok([values[0]] + values[1..]);
      FirstRest(values);
    }
  }

  /** The body of pixel lines reads back as the channel values. */
  lemma {:induction false} ParsePixelLines(lines: seq<string>, n: nat, pixels: seq<Rgb>)
    requires n <= |lines| && lines[n..] == PixelLines(pixels)
    ensures ParseBody(lines, n) == Ok(Channels(pixels))
    decreases |pixels|
  {
    if |pixels| > 0 {
      var p := pixels[0];
      assert lines[n] == Unwords([ShowInt(p.r), ShowInt(p.g), ShowInt(p.b)]) + "\n";
      PixelLineReads(p);
      assert lines[n + 1..] == PixelLines(pixels[1..]);
      ParsePixelLines(lines, n + 1, pixels[1..]);
    } else {
      assert n == |lines|;
    }
  }

  /** One pixel line is no comment and reads back as the pixel's three channels. */
  lemma PixelLineReads(p: Rgb)
    ensures var line := Unwords([ShowInt(p.r), ShowInt(p.g), ShowInt(p.b)]) + "\n";
      !StartsWith(line, '#') && ParseInts(Split(line)) == Ok([p.r as int, p.g as int, p.b as int])
  {
    var words := [ShowInt(p.r), ShowInt(p.g), ShowInt(p.b)];
    var line := Unwords(words) + "\n";
    assert line[0] == ShowInt(p.r)[0];
    SplitUnwords(words, "\n");
    SplitBlank("\n");
    assert Split(line) == words;
    ParseShown([p.r as int, p.g as int, p.b as int]);
    assert ShowAll([p.r as int, p.g as int, p.b as int]) == words;
  }

  /** The dimensions line the writer emits reads back as the two numbers. */
  lemma DimensionsRoundTrip(width: int, height: int)
    ensures ParseDimensions(Split(Strip(Unwords([ShowInt(width), ShowInt(height)]) + "\n"))) == Ok((width, height))
  {
    var dimWords := [ShowInt(width), ShowInt(height)];
    var dimLine := Unwords(dimWords);
    assert dimWords[1..] == [ShowInt(height)];
    assert Unwords(dimWords[1..]) == ShowInt(height);
    assert dimLine == ShowInt(width) + " " + ShowInt(height);
    assert dimLine[0] == ShowInt(width)[0] && dimLine[|dimLine| - 1] == ShowInt(height)[|ShowInt(height)| - 1];
    StripLine(dimLine, "\n");
    SplitUnwords(dimWords, "");
    assert dimLine + "" == dimLine;
    ParseShowInt(width);
    ParseShowInt(height);
  }

  /** The tag line the writer emits strips to P3. */
  lemma TagLineRoundTrip()
    ensures Strip("P3\n") == "P3"
  {
    assert "P3" + "\n" == "P3\n";
    StripLine("P3", "\n");
  }

  /** The maximum-value line the writer emits reads as 255. */
  lemma MaxLineRoundTrip()
    ensures ParseInt(Strip("255\n")) == Some(255)
  {
    assert "255" + "\n" == "255\n";
    assert ShowInt(255) == "255";
    StripLine("255", "\n");
    ParseShowInt(255);
  }

  /** The dimensions line the writer emits does not start with `#` once stripped. */
  lemma DimensionsLineNotComment(width: int, height: int)
    ensures !StartsWith(Strip(Unwords([ShowInt(width), ShowInt(height)]) + "\n"), '#')
  {
    var dimWords := [ShowInt(width), ShowInt(height)];
    var dimLine := Unwords(dimWords);
    assert dimWords[1..] == [ShowInt(height)];
    assert Unwords(dimWords[1..]) == ShowInt(height);
    assert dimLine == ShowInt(width) + " " + ShowInt(height);
    StripLine(dimLine, "\n");
  }

  /** A header written like the renderer's but with another maximum value is refused with that value. */
  lemma WrittenWrongMax(width: int, height: int, maxVal: int)
    requires maxVal != 255
    ensures ParsePpm(["P3\n", Unwords([ShowInt(width), ShowInt(height)]) + "\n", ShowInt(maxVal) + "\n"])
      == Err(UnsupportedMaxValue(maxVal))
  {
    var lines := ["P3\n", Unwords([ShowInt(width), ShowInt(height)]) + "\n", ShowInt(maxVal) + "\n"];
    assert ReadLine(lines, 0) == "P3\n";
    assert ReadLine(lines, 1) == Unwords([ShowInt(width), ShowInt(height)]) + "\n";
    assert ReadLine(lines, 2) == ShowInt(maxVal) + "\n";
    TagLineRoundTrip();
    DimensionsLineNotComment(width, height);
    DimensionsRoundTrip(width, height);
    assert DimensionsLine(lines, 1) == 1;
    StripLine(ShowInt(maxVal), "\n");
    ParseShowInt(maxVal);
    UnsupportedMax(lines, 1, maxVal);
  }

  /** The three header lines the writer emits lead straight to the P3 body. */
  lemma ReadWrittenHeader(lines: seq<string>, width: int, height: int)
    requires |lines| >= 3
    requires lines[..3] == ["P3\n", Unwords([ShowInt(width), ShowInt(height)]) + "\n", "255\n"]
    ensures ParsePpm(lines) == ParsePixels(ParseBody(lines, 3), width, height)
  {
    assert ReadLine(lines, 0) == "P3\n" by {
      assert lines[0] == lines[..3][0];
    }
    assert ReadLine(lines, 1) == Unwords([ShowInt(width), ShowInt(height)]) + "\n" by {
      assert lines[1] == lines[..3][1];
    }
    assert ReadLine(lines, 2) == "255\n" by {
      assert lines[2] == lines[..3][2];
    }
    TagLineRoundTrip();
    MaxLineRoundTrip();
    DimensionsLineNotComment(width, height);
    DimensionsRoundTrip(width, height);
    assert DimensionsLine(lines, 1) == 1;
    assert ParsePpm(lines) == ParseDimensionsLine(lines, true, 1);
    assert ParseDimensionsLine(lines, true, 1) == ParseMaxValue(lines, true, width, height, 2);
  }

  /**
    Reading what the renderer writes gives back its dimensions and every
    channel byte in order.
   */
  lemma ReadWritten(width: int, height: int, pixels: seq<Rgb>)
    ensures ParsePpm(PpmLines(width, height, pixels)) == Ok(Image(width, height, Bytes(Channels(pixels))))
  {
    var lines := PpmLines(width, height, pixels);
    ReadWrittenHeader(lines, width, height);
    assert lines[3..] == PixelLines(pixels);
    ParsePixelLines(lines, 3, pixels);
    assert AllBytes(Channels(pixels));
    assert ToBytes(Channels(pixels)) == Channels(pixels);
  }
}
