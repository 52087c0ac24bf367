/** The text-processing part of the user interface (ui/gui.py): reading a reference
    string of memory accesses such as "12R, 40 w; 7:R", and the checks a memory
    configuration must pass before it is accepted. */
module ReferenceInput {
  import opened Wrappers
  import opened VmConfig

  datatype Operation = Read | Write

  /** One `(addr, op)` pair of the parsed reference string. */
  datatype Access = Access(address: nat, op: Operation)

  /** The reasons the parser raises ValueError, in the order they are checked. */
  datatype ParseError =
    | EmptyInput                    // nothing but whitespace
    | BadSpaceToken(token: string)  // a token with a space that is not two words
    | BadColonToken(token: string)  // a token with more than one ':'
    | NotANumber(address: string)
    | BadOperation(op: string)
    | EmptyAfterParsing             // every token was blank

  // ---------------------------------------------------------------- characters

  /** The whitespace `str.strip()` and `str.split()` remove, as far as it lies in
      Latin-1: tab to carriage return, the four separators 0x1C-0x1F, space, NEL, NBSP. */
  predicate IsSpace(c: char)
  {
    var n := c as int;
    n == 32 || 9 <= n <= 13 || 28 <= n <= 31 || n == 0x85 || n == 0xA0
  }

  /** Nothing but whitespace. */
  ghost predicate Blank(s: string)
  {
    forall i :: 0 <= i < |s| ==> IsSpace(s[i])
  }

  predicate IsDigit(c: char)
  {
    '0' <= c <= '9'
  }

  /** `str.isdigit()` on ASCII: at least one character, all of them digits. */
  predicate IsDigits(s: string)
  {
    |s| > 0 && forall i :: 0 <= i < |s| ==> IsDigit(s[i])
  }

  function DigitValue(c: char): nat
    requires IsDigit(c)
  {
    c as int - '0' as int
  }

  /** `int(s)` of a string of decimal digits. */
  function DigitsValue(s: string): nat
    requires forall i :: 0 <= i < |s| ==> IsDigit(s[i])
    decreases |s|
  {
    if |s| == 0 then 0
    else DigitsValue(s[..|s| - 1]) * 10 + DigitValue(s[|s| - 1])
  }

  /** `str(n)`: the decimal digits of n, without leading zeros. */
  function Decimal(n: nat): (s: string)
    ensures IsDigits(s)
    decreases n
  {
    var d := ('0' as int + n % 10) as char;
    if n < 10 then [d] else Decimal(n / 10) + [d]
  }

  lemma {:induction false} DecimalValue(n: nat)
    ensures DigitsValue(Decimal(n)) == n
    decreases n
  {
    var s := Decimal(n);
    if n >= 10 {
      DecimalValue(n / 10);
      assert s[..|s| - 1] == Decimal(n / 10);
    }
  }

  /** `str.upper()` on ASCII letters. */
  function Upper(s: string): (r: string)
    ensures |r| == |s|
    ensures forall i :: 0 <= i < |s| ==> r[i] == if 'a' <= s[i] <= 'z' then (s[i] as int - 32) as char else s[i]
  {
    seq(|s|, i requires 0 <= i < |s| => if 'a' <= s[i] <= 'z' then (s[i] as int - 32) as char else s[i])
  }

  // ---------------------------------------------------------------- strings

  /** The string without its leading whitespace. */
  function TrimStart(s: string): (r: string)
    ensures |r| <= |s| && r == s[|s| - |r|..]
    ensures |r| > 0 ==> !IsSpace(r[0])
    ensures forall i :: 0 <= i < |s| - |r| ==> IsSpace(s[i])
    decreases |s|
  {
    if |s| > 0 && IsSpace(s[0]) then TrimStart(s[1..]) else s
  }

  /** The string without its trailing whitespace. */
  function TrimEnd(s: string): (r: string)
    ensures |r| <= |s| && r == s[..|r|]
    ensures |r| > 0 ==> !IsSpace(r[|r| - 1])
    ensures forall i :: |r| <= i < |s| ==> IsSpace(s[i])
    decreases |s|
  {
    if |s| > 0 && IsSpace(s[|s| - 1]) then TrimEnd(s[..|s| - 1]) else s
  }

  /** `str.strip()` */
  function Strip(s: string): string
  {
    TrimEnd(TrimStart(s))
  }

  /** Stripping leaves nothing exactly when the string is all whitespace, and leaves
      a string without whitespace unchanged. */
  lemma StripBlank(s: string)
    ensures Strip(s) == [] <==> Blank(s)
    ensures (forall i :: 0 <= i < |s| ==> !IsSpace(s[i])) ==> Strip(s) == s
  {
    var t := TrimStart(s);
    if forall i :: 0 <= i < |s| ==> !IsSpace(s[i]) {
      if |s| > 0 {
        assert |t| == |s|;
      }
    }
  }

  /** A string that neither starts nor ends with whitespace is its own strip. */
  lemma StripKeepsEnds(s: string)
    requires |s| > 0 && !IsSpace(s[0]) && !IsSpace(s[|s| - 1])
    ensures Strip(s) == s
  {
    assert TrimStart(s) == s;
  }

  /** `s.replace(a, b)` for single characters. */
  function ReplaceChar(s: string, a: char, b: char): (r: string)
    ensures |r| == |s|
    ensures forall i :: 0 <= i < |s| ==> r[i] == if s[i] == a then b else s[i]
  {
    seq(|s|, i requires 0 <= i < |s| => if s[i] == a then b else s[i])
  }

  /** `s.split(sep)`: the pieces between separators, empty ones included; always at
      least one piece. */
  function SplitOn(s: string, sep: char): (parts: seq<string>)
    ensures |parts| >= 1
    ensures forall k :: 0 <= k < |parts| ==> sep !in parts[k]
    decreases |s|
  {
    if |s| == 0 then [""]
    else
      var rest := SplitOn(s[1..], sep);
      if s[0] == sep then [""] + rest else [[s[0]] + rest[0]] + rest[1..]
  }

  /** `sep.join(parts)` */
  function Join(parts: seq<string>, sep: char): string
  {
    if |parts| == 0 then ""
    else if |parts| == 1 then parts[0]
    else parts[0] + [sep] + Join(parts[1..], sep)
  }

  /** Joining the pieces of a split gives back the string. */
  lemma {:induction false} JoinSplit(s: string, sep: char)
    ensures Join(SplitOn(s, sep), sep) == s
    decreases |s|
  {
    if |s| > 0 {
      var rest := SplitOn(s[1..], sep);
      JoinSplit(s[1..], sep);
      if s[0] != sep {
        var parts := SplitOn(s, sep);
        if |rest| > 1 {
          assert parts[1..] == rest[1..];
        }
      }
    }
  }

  /** Splitting a join of separator-free pieces gives back the pieces. */
  lemma {:induction false} SplitJoin(parts: seq<string>, sep: char)
    requires |parts| >= 1
    requires forall k :: 0 <= k < |parts| ==> sep !in parts[k]
    ensures SplitOn(Join(parts, sep), sep) == parts
    decreases |parts|, |parts[0]|
  {
    var p := parts[0];
    if |p| > 0 {
      var parts' := [p[1..]] + parts[1..];
      assert Join(parts, sep) == [p[0]] + Join(parts', sep) by {
        if |parts| > 1 {
          assert parts'[1..] == parts[1..];
        }
      }
      SplitJoin(parts', sep);
      assert [p[0]] + p[1..] == p;
      assert parts == [[p[0]] + parts'[0]] + parts'[1..];
    } else if |parts| > 1 {
      SplitJoin(parts[1..], sep);
      assert Join(parts, sep) == [sep] + Join(parts[1..], sep);
    }
  }

  /** The longest prefix without whitespace. */
  function Word(s: string): (w: string)
    ensures |w| <= |s| && w == s[..|w|]
    ensures forall i :: 0 <= i < |w| ==> !IsSpace(w[i])
    ensures |w| < |s| ==> IsSpace(s[|w|])
    decreases |s|
  {
    if |s| == 0 || IsSpace(s[0]) then [] else [s[0]] + Word(s[1..])
  }

  /** `s.split()`: the maximal runs of non-whitespace, in order. */
  function Words(s: string): (ws: seq<string>)
    ensures forall k :: 0 <= k < |ws| ==> |ws[k]| > 0
    decreases |s|
  {
    var t := TrimStart(s);
    if |t| == 0 then []
    else
      var w := Word(t);
      [w] + Words(t[|w|..])
  }

  // ---------------------------------------------------------------- parsing

  /** The operation a string names once upper-cased: only R and W are known. */
  function OperationOf(op: string): (r: Result<Operation, ParseError>)
    ensures r == Success(Read) <==> op == "R" || op == "r"
    ensures r == Success(Write) <==> op == "W" || op == "w"
  {
    var up := Upper(op);
    if up == "R" then Success(Read)
    else if up == "W" then Success(Write)
    else Failure(BadOperation(up))
  }

  /** Address and operation text of a stripped, non-empty token: `addr op`, `addr:op`
      or `addrOP`, decided by the first of space and colon that occurs in it. */
  function TokenParts(token: string): Result<(string, string), ParseError>
    requires |token| > 0
  {
    if ' ' in token then
      var parts := Words(token);
      if |parts| != 2 then Failure(BadSpaceToken(token)) else Success((parts[0], parts[1]))
    else if ':' in token then
      var parts := SplitOn(token, ':');
      if |parts| != 2 then Failure(BadColonToken(token)) else Success((parts[0], parts[1]))
    else Success((token[..|token| - 1], [token[|token| - 1]]))
  }

  /** The access an address text and an operation text name, or why they name none. */
  function AccessOf(addrStr: string, op: string): Result<Access, ParseError>
  {
    if !IsDigits(addrStr) then Failure(NotANumber(addrStr))
    else
      match OperationOf(op)
      case Failure(e) => Failure(e)
      case Success(o) => Success(Access(DigitsValue(addrStr), o))
  }

  /** A stripped, non-empty piece read as one access. */
  function ParseNonBlank(token: string): Result<Access, ParseError>
    requires |token| > 0
  {
    match TokenParts(token)
    case Failure(e) => Failure(e)
    case Success((addrStr, op)) => AccessOf(addrStr, op)
  }

  /** The body of the parser's loop for one piece between separators: nothing for a
      blank piece, else its access or the error it raises. */
  function ParseToken(raw: string): Result<Option<Access>, ParseError>
  {
    var token := Strip(raw);
    if token == [] then Success(None)
    else
      match ParseNonBlank(token)
      case Failure(e) => Failure(e)
      case Success(a) => Success(Some(a))
  }

  /** The pairs of a list of pieces, or the error of the first bad one. */
  function ParseAll(tokens: seq<string>): Result<seq<Access>, ParseError>
    decreases |tokens|
  {
    if |tokens| == 0 then Success([])
    else
      match ParseAll(tokens[..|tokens| - 1])
      case Failure(e) => Failure(e)
      case Success(pairs) =>
        match ParseToken(tokens[|tokens| - 1])
        case Failure(e) => Failure(e)
        case Success(None) => Success(pairs)
        case Success(Some(a)) => Success(pairs + [a])
  }

  /** ParseAll over one more piece. */
  lemma ParseAllStep(tokens: seq<string>, k: nat)
    requires k < |tokens|
    ensures ParseAll(tokens[..k + 1]) ==
      match ParseAll(tokens[..k])
      case Failure(e) => Failure(e)
      case Success(pairs) =>
        match ParseToken(tokens[k])
        case Failure(e) => Failure(e)
        case Success(None) => Success(pairs)
        case Success(Some(a)) => Success(pairs + [a])
  {
    assert tokens[..k + 1][..k] == tokens[..k];
  }

  /** Once a piece fails, the later pieces are not looked at. */
  lemma {:induction false} FirstErrorWins(tokens: seq<string>, k: nat)
    requires k <= |tokens| && ParseAll(tokens[..k]).Failure?
    ensures ParseAll(tokens) == ParseAll(tokens[..k])
    decreases |tokens| - k
  {
    if k < |tokens| {
      ParseAllStep(tokens, k);
      FirstErrorWins(tokens, k + 1);
    } else {
      assert tokens[..k] == tokens;
    }
  }

  /** `parse_reference_string`: `;` counts as `,`; blank input and input without a
      single access are errors. */
  function Parse(text: string): Result<seq<Access>, ParseError>
  {
    if Strip(text) == [] then Failure(EmptyInput)
    else
      match ParseAll(Pieces(text))
      case Failure(e) => Failure(e)
      case Success(pairs) => if pairs == [] then Failure(EmptyAfterParsing) else Success(pairs)
  }

  /** The pieces the parser looks at: the text cut at every `,` and `;`. */
  function Pieces(text: string): seq<string>
  {
    SplitOn(ReplaceChar(text, ';', ','), ',')
  }

  /** `parse_reference_string`, the loop over the comma-separated pieces. */
  method ParseReferenceString(text: string) returns (r: Result<seq<Access>, ParseError>)
    ensures r == Parse(text)
  {
    if Strip(text) == [] {
      return Failure(EmptyInput);
    }
    var cleaned := ReplaceChar(text, ';', ',');
    var tokens := SplitOn(cleaned, ',');
    assert tokens == Pieces(text);
    var pairs := [];
    for k := 0 to |tokens|
      invariant ParseAll(tokens[..k]) == Success(pairs)
    {
      ParseAllStep(tokens, k);
      var parsed := ParseToken(tokens[k]);
      match parsed
      case Failure(e) =>
        FirstErrorWins(tokens, k + 1);
        return Failure(e);
      case Success(None) =>
      case Success(Some(a)) =>
        pairs := pairs + [a];
    }
    assert tokens[..|tokens|] == tokens;
    if pairs == [] {
      return Failure(EmptyAfterParsing);
    }
    return Success(pairs);
  }

  // ---------------------------------------------------------------- properties

  /** No separator between the pieces, and none of the pieces' characters, is c. */
  lemma {:induction false} JoinAvoids(parts: seq<string>, sep: char, c: char)
    requires c != sep && forall k :: 0 <= k < |parts| ==> c !in parts[k]
    ensures c !in Join(parts, sep)
    decreases |parts|
  {
    if |parts| > 1 {
      JoinAvoids(parts[1..], sep, c);
    }
  }

  /** A join starts with its first piece. */
  lemma JoinStart(parts: seq<string>, sep: char)
    requires |parts| >= 1
    ensures Join(parts, sep)[..|parts[0]|] == parts[0]
  {
  }

  /** Replacing one non-whitespace character by another keeps a text blank or not blank. */
  lemma ReplaceKeepsBlank(text: string, a: char, b: char)
    requires !IsSpace(a) && !IsSpace(b)
    ensures Strip(ReplaceChar(text, a, b)) == [] <==> Strip(text) == []
  {
    var cleaned := ReplaceChar(text, a, b);
    StripBlank(text);
    StripBlank(cleaned);
    if Blank(text) {
      forall i | 0 <= i < |cleaned| ensures IsSpace(cleaned[i]) {
        assert IsSpace(text[i]);
      }
    }
    if Blank(cleaned) {
      forall i | 0 <= i < |text| ensures IsSpace(text[i]) {
        assert IsSpace(cleaned[i]);
      }
    }
  }

  /** Semicolons are read as commas: the parser gives the same answer after they are
      replaced. */
  lemma SemicolonIsComma(text: string)
    ensures Parse(ReplaceChar(text, ';', ',')) == Parse(text)
  {
    var cleaned := ReplaceChar(text, ';', ',');
    ReplaceKeepsBlank(text, ';', ',');
    assert ReplaceChar(cleaned, ';', ',') == cleaned;
    assert Pieces(cleaned) == Pieces(text);
  }

  /** How many of the pieces are not blank. */
  function NonBlank(tokens: seq<string>): nat
    decreases |tokens|
  {
    if |tokens| == 0 then 0
    else NonBlank(tokens[..|tokens| - 1]) + (if Strip(tokens[|tokens| - 1]) == [] then 0 else 1)
  }

  /** A piece is rejected only for its own form: a bad `addr op`, a bad `addr:op`, an
      address that is not a number or an unknown operation. */
  predicate IsTokenError(e: ParseError)
  {
    e.BadSpaceToken? || e.BadColonToken? || e.NotANumber? || e.BadOperation?
  }

  /** Every non-blank piece yields exactly one access, blank ones none, and a failure
      is the failure of some piece. */
  lemma {:induction false} ParseAllOutcome(tokens: seq<string>)
    ensures ParseAll(tokens).Success? ==> |ParseAll(tokens).value| == NonBlank(tokens)
    ensures ParseAll(tokens).Failure? ==> IsTokenError(ParseAll(tokens).error)
    decreases |tokens|
  {
    if |tokens| > 0 {
      var init, last := tokens[..|tokens| - 1], tokens[|tokens| - 1];
      ParseAllOutcome(init);
      ParseTokenOutcome(last);
      match ParseAll(init)
      case Failure(e) =>
        assert ParseAll(tokens) == Failure(e);
      case Success(pairs) =>
        match ParseToken(last)
        case Failure(e) =>
          assert ParseAll(tokens) == Failure(e);
        case Success(None) =>
          assert ParseAll(tokens) == Success(pairs);
        case Success(Some(a)) =>
          assert ParseAll(tokens) == Success(pairs + [a]);
    }
  }

  /** A piece yields nothing exactly when it is blank, and fails only for its form. */
  lemma ParseTokenOutcome(raw: string)
    ensures ParseToken(raw) == Success(None) <==> Strip(raw) == []
    ensures ParseToken(raw).Failure? ==> IsTokenError(ParseToken(raw).error)
  {
    if Strip(raw) != [] {
      var token := Strip(raw);
      match TokenParts(token)
      case Failure(e) =>
      case Success((addrStr, op)) =>
        assert ParseNonBlank(token) == AccessOf(addrStr, op);
    }
  }

  /** The parser rejects exactly blank input as empty; otherwise it returns at least
      one access, one per non-blank piece between separators, or the error of the first
      bad piece, or reports that every piece was blank. */
  lemma ParseOutcome(text: string)
    ensures Parse(text) == Failure(EmptyInput) <==> forall i :: 0 <= i < |text| ==> IsSpace(text[i])
    ensures Parse(text).Success? ==>
              0 < |Parse(text).value| == NonBlank(Pieces(text))
    ensures Parse(text) == Failure(EmptyAfterParsing) ==> NonBlank(Pieces(text)) == 0
  {
    StripBlank(text);
    ParseAllOutcome(Pieces(text));
  }

  function OpLetter(op: Operation): char
  {
    match op
    case Read => 'R'
    case Write => 'W'
  }

  /** The compact `addrOP` form of an access, such as "12R". */
  function Token(a: Access): string
  {
    Decimal(a.address) + [OpLetter(a.op)]
  }

  function Tokens(accesses: seq<Access>): (r: seq<string>)
    ensures |r| == |accesses| && forall i :: 0 <= i < |accesses| ==> r[i] == Token(accesses[i])
  {
    seq(|accesses|, i requires 0 <= i < |accesses| => Token(accesses[i]))
  }

  /** A reference string listing the accesses in compact form, separated by commas. */
  function Render(accesses: seq<Access>): string
  {
    Join(Tokens(accesses), ',')
  }

  lemma TokenParses(a: Access)
    ensures ParseToken(Token(a)) == Success(Some(a))
    ensures ',' !in Token(a) && ';' !in Token(a)
  {
    var d := Decimal(a.address);
    var letter := OpLetter(a.op);
    assert Token(a) == d + [letter];
    assert letter in "RrWw" && OperationLetter(letter) == a.op;
    DecimalValue(a.address);
    calc {
      ParseToken(Token(a));
      ParseToken(d + [letter]);
      { CompactForm(d, letter); }
      Success(Some(Access(DigitsValue(d), OperationLetter(letter))));
    }
    TokenAvoidsSeparators(d, letter);
  }

  lemma TokenAvoidsSeparators(d: string, letter: char)
    requires IsDigits(d) && letter in "RrWw"
    ensures ',' !in d + [letter] && ';' !in d + [letter]
  {
    forall i | 0 <= i < |d| ensures d[i] != ',' && d[i] != ';' {
      assert IsDigit(d[i]);
    }
  }

  /** Rendering the accesses and parsing the text back gives the same accesses. */
  lemma RenderRoundTrip(accesses: seq<Access>)
    requires |accesses| > 0
    ensures Parse(Render(accesses)) == Success(accesses)
  {
    var tokens := Tokens(accesses);
    var text := Render(accesses);
    forall k | 0 <= k < |tokens| ensures ',' !in tokens[k] && ';' !in tokens[k] {
      TokenParses(accesses[k]);
    }
    JoinAvoids(tokens, ',', ';');
    assert ReplaceChar(text, ';', ',') == text;
    SplitJoin(tokens, ',');
    JoinStart(tokens, ',');
    StripBlank(text);
    assert IsDigit(text[0]);
    ParseAllTokens(accesses);
  }

  lemma {:induction false} ParseAllTokens(accesses: seq<Access>)
    ensures ParseAll(Tokens(accesses)) == Success(accesses)
    decreases |accesses|
  {
    var n := |accesses|;
    if n > 0 {
      var tokens := Tokens(accesses);
      var init := accesses[..n - 1];
      ParseAllTokens(init);
      assert tokens[..n - 1] == Tokens(init);
      TokenParses(accesses[n - 1]);
      assert ParseAll(tokens) == Success(init + [accesses[n - 1]]);
      assert init + [accesses[n - 1]] == accesses;
    }
  }

  /** The longest non-whitespace prefix of a word followed by whitespace is the word. */
  lemma {:induction false} WordBeforeSpace(x: string, y: string)
    requires forall i :: 0 <= i < |x| ==> !IsSpace(x[i])
    requires |y| > 0 ==> IsSpace(y[0])
    ensures Word(x + y) == x
    decreases |x|
  {
    if |x| > 0 {
      WordBeforeSpace(x[1..], y);
      assert (x + y)[1..] == x[1..] + y;
    }
  }

  /** A string of digits has no whitespace, space or colon in it. */
  lemma DigitsArePlain(digits: string)
    requires IsDigits(digits)
    ensures forall i :: 0 <= i < |digits| ==> !IsSpace(digits[i]) && digits[i] != ' ' && digits[i] != ':'
  {
    forall i | 0 <= i < |digits| ensures !IsSpace(digits[i]) && digits[i] != ' ' && digits[i] != ':' {
      assert IsDigit(digits[i]);
    }
  }

  /** The operation a letter names, either case. */
  function OperationLetter(op: char): Operation
  {
    if op in "Rr" then Read else Write
  }

  /** A stripped token whose parts are a number and an operation letter parses to
      that access. */
  lemma FromParts(token: string, digits: string, op: char)
    requires |token| > 0 && Strip(token) == token
    requires IsDigits(digits) && op in "RrWw"
    requires TokenParts(token) == Success((digits, [op]))
    ensures ParseToken(token) == Success(Some(Access(DigitsValue(digits), OperationLetter(op))))
  {
    assert OperationOf([op]) == Success(OperationLetter(op));
  }

  lemma CompactParts(digits: string, op: char)
    requires IsDigits(digits) && op in "RrWw"
    ensures TokenParts(digits + [op]) == Success((digits, [op]))
  {
    DigitsArePlain(digits);
    var compact := digits + [op];
    assert compact[..|compact| - 1] == digits;
    assert ' ' !in compact && ':' !in compact;
  }

  /** `addrOP`, such as "12r" */
  lemma CompactForm(digits: string, op: char)
    requires IsDigits(digits) && op in "RrWw"
    ensures ParseToken(digits + [op]) == Success(Some(Access(DigitsValue(digits), OperationLetter(op))))
  {
    DigitsArePlain(digits);
    StripKeepsEnds(digits + [op]);
    CompactParts(digits, op);
    FromParts(digits + [op], digits, op);
  }

  lemma ColonParts(digits: string, op: char)
    requires IsDigits(digits) && op in "RrWw"
    ensures TokenParts(digits + [':', op]) == Success((digits, [op]))
  {
    DigitsArePlain(digits);
    var colon := digits + [':', op];
    assert ' ' !in colon;
    assert Join([digits, [op]], ':') == colon;
    SplitJoin([digits, [op]], ':');
  }

  /** `addr:op`, such as "12:r" */
  lemma ColonForm(digits: string, op: char)
    requires IsDigits(digits) && op in "RrWw"
    ensures ParseToken(digits + [':', op]) == Success(Some(Access(DigitsValue(digits), OperationLetter(op))))
  {
    DigitsArePlain(digits);
    StripKeepsEnds(digits + [':', op]);
    ColonParts(digits, op);
    FromParts(digits + [':', op], digits, op);
  }

  lemma SpacedWords(digits: string, op: char)
    requires IsDigits(digits) && op in "RrWw"
    ensures Words(digits + [' ', op]) == [digits, [op]]
  {
    var spaced := digits + [' ', op];
    assert Words(spaced) == [digits] + Words([' ', op]) by {
      assert TrimStart(spaced) == spaced by {
        DigitsArePlain(digits);
      }
      assert Word(spaced) == digits by {
        DigitsArePlain(digits);
        WordBeforeSpace(digits, [' ', op]);
      }
      assert spaced[|digits|..] == [' ', op];
      WordsStep(spaced, digits, [' ', op]);
    }
    assert Words([' ', op]) == [[op]] by {
      SpaceThenLetter(op);
    }
    assert [digits] + [[op]] == [digits, [op]];
  }

  /** Words of a string that starts with a word: that word, then the words after it. */
  lemma WordsStep(s: string, w: string, rest: string)
    requires |s| > 0 && TrimStart(s) == s && Word(s) == w && s[|w|..] == rest
    ensures Words(s) == [w] + Words(rest)
  {
  }

  lemma SpaceThenLetter(op: char)
    requires op in "RrWw"
    ensures Words([' ', op]) == [[op]]
  {
    var spaced: string := [' ', op];
    assert !IsSpace(op);
    assert TrimStart([op]) == [op];
    assert spaced[1..] == [op];
    assert TrimStart(spaced) == [op];
    assert Word([op]) == [op] by {
      assert [op][1..] == [];
      assert Word([]) == [];
    }
    assert [op][|[op]|..] == [];
    assert Words([]) == [];
  }

  /** `addr op`, such as "12 r" */
  lemma SpacedForm(digits: string, op: char)
    requires IsDigits(digits) && op in "RrWw"
    ensures ParseToken(digits + [' ', op]) == Success(Some(Access(DigitsValue(digits), OperationLetter(op))))
  {
    DigitsArePlain(digits);
    var spaced := digits + [' ', op];
    StripKeepsEnds(spaced);
    SpacedWords(digits, op);
    assert ' ' in spaced by { assert spaced[|digits|] == ' '; }
    FromParts(spaced, digits, op);
  }

  // ---------------------------------------------------------------- configuration

  /** Why `apply_inputs` refuses a configuration, in the order it checks. */
  datatype ConfigError =
    | OffsetNotPositive
    | PhysicalNotMultiple     // physical size not a multiple of the page size
    | VirtualNotMultiple      // virtual size not a multiple of the page size
    | SizeNotPositive
    | PhysicalExceedsVirtual

  datatype InputError = BadReference(reason: ParseError) | BadConfig(problem: ConfigError)

  /** The guards of `apply_inputs`, after the reference string has been parsed. */
  function CheckConfig(virtualSize: int, physicalSize: int, offsetBits: int): Option<ConfigError>
  {
    if offsetBits <= 0 then Some(OffsetNotPositive)
    else
      ShiftLeftIsPow2(1, offsetBits);
      var pageSize := ShiftLeft(1, offsetBits);
      if physicalSize % pageSize != 0 then Some(PhysicalNotMultiple)
      else if virtualSize % pageSize != 0 then Some(VirtualNotMultiple)
      else if physicalSize <= 0 || virtualSize <= 0 then Some(SizeNotPositive)
      else if physicalSize > virtualSize then Some(PhysicalExceedsVirtual)
      else None
  }

  /** `apply_inputs` on the numbers and the reference text it reads from the fields:
      the reference string is parsed first, then the configuration is checked. */
  function ApplyInputs(virtualSize: int, physicalSize: int, offsetBits: int, reference: string)
    : Result<(VMConfig, seq<Access>), InputError>
  {
    match Parse(reference)
    case Failure(e) => Failure(BadReference(e))
    case Success(accesses) =>
      match CheckConfig(virtualSize, physicalSize, offsetBits)
      case Some(problem) => Failure(BadConfig(problem))
      case None => Success((VMConfig(virtualSize, physicalSize, offsetBits), accesses))
  }

  /** The inputs are accepted exactly when the reference string parses, the offset is
      positive, both sizes are positive multiples of the page size, and physical memory
      does not exceed virtual memory. */
  lemma AcceptedIff(virtualSize: int, physicalSize: int, offsetBits: int, reference: string)
    ensures ApplyInputs(virtualSize, physicalSize, offsetBits, reference).Success? <==>
      && Parse(reference).Success?
      && offsetBits > 0
      && physicalSize % Pow2(offsetBits) == 0 && virtualSize % Pow2(offsetBits) == 0
      && physicalSize > 0 && virtualSize > 0
      && physicalSize <= virtualSize
  {
    ConfigAcceptedIff(virtualSize, physicalSize, offsetBits);
    assert ApplyInputs(virtualSize, physicalSize, offsetBits, reference).Success? <==>
      Parse(reference).Success? && CheckConfig(virtualSize, physicalSize, offsetBits).None?;
  }

  /** The configuration check passes exactly under the conditions of AcceptedIff. */
  lemma ConfigAcceptedIff(virtualSize: int, physicalSize: int, offsetBits: int)
    ensures CheckConfig(virtualSize, physicalSize, offsetBits).None? <==>
      && offsetBits > 0
      && physicalSize % Pow2(offsetBits) == 0 && virtualSize % Pow2(offsetBits) == 0
      && physicalSize > 0 && virtualSize > 0
      && physicalSize <= virtualSize
  {
    if offsetBits > 0 {
      ShiftLeftIsPow2(1, offsetBits);
    }
  }

  /** An accepted configuration divides physical and virtual memory into whole pages,
      has at least one frame, and no more frames than virtual pages. */
  lemma AcceptedConfiguration(virtualSize: int, physicalSize: int, offsetBits: int)
    requires CheckConfig(virtualSize, physicalSize, offsetBits).None?
    ensures var c := VMConfig(virtualSize, physicalSize, offsetBits);
      && c.offsetBits > 0
      && c.NumFrames() * c.PageSize() == physicalSize
      && c.NumVirtualPages() * c.PageSize() == virtualSize
      && 0 < c.NumFrames() <= c.NumVirtualPages()
  {
    var c := VMConfig(virtualSize, physicalSize, offsetBits);
    ShiftLeftIsPow2(1, offsetBits);
    var p := c.PageSize();
    DivModUnique(physicalSize, p, c.NumFrames(), 0);
    DivModUnique(virtualSize, p, c.NumVirtualPages(), 0);
    DivModUnique(physicalSize, p, physicalSize / p, physicalSize % p);
    DivModUnique(virtualSize, p, virtualSize / p, virtualSize % p);
    assert c.NumFrames() * p <= c.NumVirtualPages() * p;
  }
}
