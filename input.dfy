/** sanitizeValidInput (module_logic.js): the check of a typed command or
    move before it is played. The regular expressions of the source are
    stated as predicates on the text; String.split and Number are modelled
    for the strings that reach them. */
module Input {
  import opened Wrappers
  import opened Rules

  /** The words accepted whoever is to move. */
  const Commands: seq<string> := ["save", "exit", "undo"]

  /** \d: an ASCII decimal digit. */
  predicate IsDigit(ch: char) {
    '0' as int <= ch as int <= '9' as int
  }

  /** \d+: one or more digits. */
  predicate IsDigits(s: string) {
    |s| > 0 && forall i :: 0 <= i < |s| ==> IsDigit(s[i])
  }

  /** The decimal value of a run of digits (leading zeros allowed). */
  function DigitsValue(s: string): nat
    requires forall i :: 0 <= i < |s| ==> IsDigit(s[i])
  {
    if s == [] then 0
    else
      assert IsDigit(s[|s| - 1]);
      10 * DigitsValue(s[..|s| - 1]) + (s[|s| - 1] as int - '0' as int)
  }

  /** Number(part) on the pieces the shape checks let through: the value of a
      digit run. Other text reads as NaN (None); the empty text, which Number
      reads as 0, never reaches it behind the shape checks. */
  function ToNumber(s: string): Option<nat> {
    if IsDigits(s) then Some(DigitsValue(s)) else None
  }

  function Numbers(parts: seq<string>): (ns: seq<Option<nat>>)
    ensures |ns| == |parts|
    ensures forall i :: 0 <= i < |parts| ==> ns[i] == ToNumber(parts[i])
  {
    seq(|parts|, i requires 0 <= i < |parts| => ToNumber(parts[i]))
  }

  /** String.prototype.split with a one-character separator: the pieces
      between the separators, always at least one. */
  function Split(s: string, sep: char): (parts: seq<string>)
    ensures |parts| >= 1
  {
    if s == [] then [""]
    else
      var rest := Split(s[1..], sep);
      if s[0] == sep then [""] + rest else [[s[0]] + rest[0]] + rest[1..]
  }

  lemma {:induction false} SplitNoSeparator(s: string, sep: char)
    requires sep !in s
    ensures Split(s, sep) == [s]
  {
    if s != [] {
      assert sep !in s[1..];
      SplitNoSeparator(s[1..], sep);
      assert [s[0]] + s[1..] == s;
    }
  }

  lemma {:induction false} SplitAtSeparator(x: string, sep: char, y: string)
    requires sep !in x
    ensures Split(x + [sep] + y, sep) == [x] + Split(y, sep)
  {
    if x == [] {
      assert (x + [sep] + y)[1..] == y;
    } else {
      assert (x + [sep] + y)[1..] == x[1..] + [sep] + y;
      assert sep !in x[1..];
      SplitAtSeparator(x[1..], sep, y);
      assert [x[0]] + x[1..] == x;
    }
  }

  /** /^\d,\d$/ */
  predicate FoxShape(s: string) {
    |s| == 3 && IsDigit(s[0]) && s[1] == ',' && IsDigit(s[2])
  }

  /** /^\d+,\d+$/ */
  predicate PairShape(t: string) {
    exists i :: 0 <= i < |t| && t[i] == ',' && IsDigits(t[..i]) && IsDigits(t[i + 1..])
  }

  /** /^\d+,\d+-\d+,\d+$/ */
  predicate GooseShape(s: string) {
    exists k :: 0 <= k < |s| && s[k] == '-' && PairShape(s[..k]) && PairShape(s[k + 1..])
  }

  /** sanitizeValidInput. With the fox to move the input is the fox's end
      cell "r,c"; with the geese to move it is "r,c-r,c". For the geese only
      the start's column is checked against the board (a start row is never
      negative once the shape matched). */
  function SanitizeValidInput(player: Player, input: string): (r: GameStatus)
    ensures r == ValidInput || r == NotValidInput
    ensures input in Commands ==> r == ValidInput
  {
    if input in Commands then ValidInput
    else if player == FoxSide then
      if !FoxShape(input) then NotValidInput
      else
        var end := Numbers(Split(input, ','));
        if |end| != 2 then NotValidInput
        else if end[0].Some? && end[1].Some? && 0 <= end[0].value <= 8 && 0 <= end[1].value <= 8
        then ValidInput
        else NotValidInput
    else
      if !GooseShape(input) then NotValidInput
      else
        var halves := Split(input, '-');
        // Destructuring a missing second half throws; the catch answers NOT_VALID_INPUT.
        if |halves| < 2 then NotValidInput
        else
          var start := Numbers(Split(halves[0], ','));
          var end := Numbers(Split(halves[1], ','));
          if |start| != 2 || |end| != 2 then NotValidInput
          else if start[0].Some? && start[1].Some? && start[0].value >= 0 && start[1].value <= 8
          then ValidInput
          else NotValidInput
  }

  lemma DigitValue(a: char)
    requires IsDigit(a)
    ensures IsDigits([a]) && ToNumber([a]) == Some(a as int - '0' as int)
  {
    assert [a][..0] == [];
    assert DigitsValue([a]) == 10 * DigitsValue([]) + (a as int - '0' as int);
  }

  /** With the fox to move, an input other than a command is accepted exactly
      when it is "r,c" with two single digits, neither of them 9. */
  lemma SanitizeFoxInput(input: string)
    requires input !in Commands
    ensures SanitizeValidInput(FoxSide, input) == ValidInput <==>
            |input| == 3 && IsDigit(input[0]) && input[0] != '9' && input[1] == ',' &&
            IsDigit(input[2]) && input[2] != '9'
  {
    if FoxShape(input) {
      assert input == [input[0]] + [','] + [input[2]];
      SplitAtSeparator([input[0]], ',', [input[2]]);
      SplitNoSeparator([input[2]], ',');
      assert Split(input, ',') == [[input[0]], [input[2]]];
      DigitValue(input[0]);
      DigitValue(input[2]);
    }
  }

  /** Splitting "a,b" where a and b are digit runs at the comma. */
  lemma SplitPair(t: string, i: int)
    requires 0 <= i < |t| && t[i] == ',' && IsDigits(t[..i]) && IsDigits(t[i + 1..])
    ensures '-' !in t
    ensures Split(t, ',') == [t[..i], t[i + 1..]]
  {
    assert t == t[..i] + [','] + t[i + 1..];
    assert ',' !in t[..i];
    assert ',' !in t[i + 1..];
    SplitAtSeparator(t[..i], ',', t[i + 1..]);
    SplitNoSeparator(t[i + 1..], ',');
    forall j | 0 <= j < |t|
      ensures t[j] != '-'
    {
      if j < i {
        assert t[j] == t[..i][j];
      } else if j > i {
        assert t[j] == t[i + 1..][j - i - 1];
      }
    }
  }

  /** The geese branch of sanitizeValidInput once the input has been split
      into its four digit runs. */
  lemma SanitizeGeeseParts(input: string, first: string, rest: string, a: string, b: string, c: string, d: string)
    requires input !in Commands && GooseShape(input)
    requires Split(input, '-') == [first, rest]
    requires Split(first, ',') == [a, b] && Split(rest, ',') == [c, d]
    requires IsDigits(a) && IsDigits(b) && IsDigits(c) && IsDigits(d)
    ensures SanitizeValidInput(GeeseSide, input) == ValidInput <==> DigitsValue(b) <= 8
  {
  }

  /** With the geese to move, an input "a,b-c,d" of digit runs (not a command)
      is accepted exactly when b, the start's column, is at most 8; nothing
      is checked of a, c or d. */
  lemma SanitizeGeeseInput(input: string, k: int, i: int)
    requires input !in Commands
    requires 0 <= i < k < |input| && input[k] == '-' && input[i] == ','
    requires IsDigits(input[..i]) && IsDigits(input[i + 1..k]) && PairShape(input[k + 1..])
    ensures SanitizeValidInput(GeeseSide, input) == ValidInput <==> DigitsValue(input[i + 1..k]) <= 8
  {
    var first, rest := input[..k], input[k + 1..];
    var j :| 0 <= j < |rest| && rest[j] == ',' && IsDigits(rest[..j]) && IsDigits(rest[j + 1..]);
    GeeseInputPieces(input, k, i, j);
    SanitizeGeeseParts(input, first, rest, input[..i], input[i + 1..k], rest[..j], rest[j + 1..]);
  }

  /** Two "a,b" pieces joined by a dash: the result has the goose shape and
      splits back into the two pieces, and each piece into its two runs. */
  lemma JoinPairs(first: string, rest: string, i: int, j: int)
    requires 0 <= i < |first| && first[i] == ',' && IsDigits(first[..i]) && IsDigits(first[i + 1..])
    requires 0 <= j < |rest| && rest[j] == ',' && IsDigits(rest[..j]) && IsDigits(rest[j + 1..])
    ensures Split(first, ',') == [first[..i], first[i + 1..]]
    ensures Split(rest, ',') == [rest[..j], rest[j + 1..]]
    ensures GooseShape(first + ['-'] + rest)
    ensures Split(first + ['-'] + rest, '-') == [first, rest]
  {
    SplitPair(first, i);
    SplitPair(rest, j);
    SplitAtSeparator(first, '-', rest);
    SplitNoSeparator(rest, '-');
    var input := first + ['-'] + rest;
    assert input[..|first|] == first && input[|first| + 1..] == rest;
    assert PairShape(first) && PairShape(rest);
  }

  /** How "a,b-c,d" splits, with the comma of the start at i, the dash at k
      and the comma of the end at k + 1 + j. */
  lemma GeeseInputPieces(input: string, k: int, i: int, j: int)
    requires 0 <= i < k < |input| && input[k] == '-' && input[i] == ','
    requires IsDigits(input[..i]) && IsDigits(input[i + 1..k])
    requires 0 <= j < |input| - k - 1 && input[k + 1..][j] == ','
    requires IsDigits(input[k + 1..][..j]) && IsDigits(input[k + 1..][j + 1..])
    ensures GooseShape(input)
    ensures Split(input, '-') == [input[..k], input[k + 1..]]
    ensures Split(input[..k], ',') == [input[..i], input[i + 1..k]]
    ensures Split(input[k + 1..], ',') == [input[k + 1..][..j], input[k + 1..][j + 1..]]
  {
    var first, rest := input[..k], input[k + 1..];
    assert input == first + ['-'] + rest;
    assert first[..i] == input[..i] && first[i + 1..] == input[i + 1..k];
    JoinPairs(first, rest, i, j);
  }

  /** Whoever is to move, an input of neither shape that is not a command is refused. */
  lemma SanitizeRejectsOtherShapes(player: Player, input: string)
    requires input !in Commands
    requires player == FoxSide ==> !FoxShape(input)
    requires player == GeeseSide ==> !GooseShape(input)
    ensures SanitizeValidInput(player, input) == NotValidInput
  {
  }

  // ---------------------------------------------------------------------
  // The geese branch checks only the start's column against the board.

  /** The geese branch of sanitizeValidInput as evidently intended: all four
      numbers of "r,c-r,c" must be cells of the 9x9 board, as the fox branch
      demands of its two. Commands and the fox branch are unchanged. */
  function SanitizeValidInputCorrected(player: Player, input: string): (r: GameStatus)
    ensures r == ValidInput || r == NotValidInput
  {
    if input in Commands || player == FoxSide then SanitizeValidInput(player, input)
    else if !GooseShape(input) then NotValidInput
    else
      var halves := Split(input, '-');
      if |halves| < 2 then NotValidInput
      else
        var start := Numbers(Split(halves[0], ','));
        var end := Numbers(Split(halves[1], ','));
        if |start| != 2 || |end| != 2 then NotValidInput
        else if start[0].Some? && start[1].Some? && end[0].Some? && end[1].Some? &&
                start[0].value <= 8 && start[1].value <= 8 && end[0].value <= 8 && end[1].value <= 8
        then ValidInput
        else NotValidInput
  }

  lemma SanitizeGeesePartsCorrected(input: string, first: string, rest: string, va: nat, vb: nat, vc: nat, vd: nat)
    requires input !in Commands && GooseShape(input)
    requires Split(input, '-') == [first, rest]
    requires Numbers(Split(first, ',')) == [Some(va), Some(vb)]
    requires Numbers(Split(rest, ',')) == [Some(vc), Some(vd)]
    ensures SanitizeValidInputCorrected(GeeseSide, input) == ValidInput <==>
              va <= 8 && vb <= 8 && vc <= 8 && vd <= 8
  {
  }

  /** With the geese to move, the corrected check accepts "a,b-c,d" exactly
      when all four digit runs are at most 8. */
  lemma SanitizeGeeseInputCorrected(input: string, k: int, i: int, j: int)
    requires input !in Commands
    requires 0 <= i < k < |input| && input[k] == '-' && input[i] == ','
    requires IsDigits(input[..i]) && IsDigits(input[i + 1..k])
    requires 0 <= j < |input| - k - 1 && input[k + 1..][j] == ','
    requires IsDigits(input[k + 1..][..j]) && IsDigits(input[k + 1..][j + 1..])
    ensures SanitizeValidInputCorrected(GeeseSide, input) == ValidInput <==>
              DigitsValue(input[..i]) <= 8 && DigitsValue(input[i + 1..k]) <= 8 &&
              DigitsValue(input[k + 1..][..j]) <= 8 && DigitsValue(input[k + 1..][j + 1..]) <= 8
  {
    var rest := input[k + 1..];
    GeeseInputPieces(input, k, i, j);
    var a, b, c, d := input[..i], input[i + 1..k], rest[..j], rest[j + 1..];
    assert Numbers(Split(input[..k], ',')) == [Some(DigitsValue(a)), Some(DigitsValue(b))] by {
      assert Numbers([a, b]) == [ToNumber(a), ToNumber(b)];
    }
    assert Numbers(Split(rest, ',')) == [Some(DigitsValue(c)), Some(DigitsValue(d))] by {
      assert Numbers([c, d]) == [ToNumber(c), ToNumber(d)];
    }
    SanitizeGeesePartsCorrected(input, input[..k], rest, DigitsValue(a), DigitsValue(b), DigitsValue(c), DigitsValue(d));
  }

  /** The corrected check only ever refuses more: whatever it accepts, the
      check as written accepts too. */
  lemma CorrectedIsStricter(player: Player, input: string)
    ensures SanitizeValidInputCorrected(player, input) == ValidInput ==> SanitizeValidInput(player, input) == ValidInput
  {
  }

  /** As written, the geese may name a start row off the board: "9,0-0,0"
      is accepted, while the corrected check refuses it. */
  lemma SanitizeAcceptsOffBoardStart()
    ensures SanitizeValidInput(GeeseSide, "9,0-0,0") == ValidInput
    ensures SanitizeValidInputCorrected(GeeseSide, "9,0-0,0") == NotValidInput
  {
    var input := "9,0-0,0";
    assert input[..1] == "9" && input[2..3] == "0";
    assert input[4..] == "0,0" && input[4..][..1] == "0" && input[4..][2..] == "0";
    DigitValue('9');
    DigitValue('0');
    assert input !in Commands;
    SanitizeGeeseInput(input, 3, 1);
    SanitizeGeeseInputCorrected(input, 3, 1, 1);
  }
}

