/** The loose test that decides whether a stripped CSV line is a signal sample:
    `line.replace('.', '', 1).replace(',', '', 1).replace('-', '', 1).isdigit()`. */
module NumericLine {
  import opened Strings

  /** The three separators the test deletes one of each. */
  const Separators: set<char> := {'.', ',', '-'}

  /** `str.isdigit()`: false on the empty string, otherwise every character is a digit. */
  predicate IsDigitString(t: string) {
    |t| > 0 && forall k :: 0 <= k < |t| ==> IsDigit(t[k])
  }

  /** What is left of `line` after deleting its first `.`, then its first `,`, then its first `-`. */
  function Residue(line: string): string {
    RemoveFirst(RemoveFirst(RemoveFirst(line, '.'), ','), '-')
  }

  /** The numeric test of the parser, exactly as it is written. */
  predicate IsNumeric(line: string) {
    IsDigitString(Residue(line))
  }

  /** The same test read as a grammar: at most one of each separator, anywhere in the line,
      every other character a digit, and at least one digit. */
  ghost predicate LooseNumber(line: string) {
    && multiset(line)['.'] <= 1
    && multiset(line)[','] <= 1
    && multiset(line)['-'] <= 1
    && (forall k :: 0 <= k < |line| ==> IsDigit(line[k]) || line[k] in Separators)
    && (exists k :: 0 <= k < |line| && IsDigit(line[k]))
  }

  /** The characters left after the three deletions are those of the line, less one of each separator. */
  lemma ResidueMultiset(line: string)
    ensures multiset(Residue(line)) == multiset(line) - multiset{'.'} - multiset{','} - multiset{'-'}
  {
    RemoveFirstMultiset(line, '.');
    RemoveFirstMultiset(RemoveFirst(line, '.'), ',');
    RemoveFirstMultiset(RemoveFirst(RemoveFirst(line, '.'), ','), '-');
  }

  /** How often each character occurs in the residue. */
  lemma ResidueCount(line: string, x: char)
    ensures multiset(Residue(line))[x] ==
      if x in Separators && multiset(line)[x] > 0 then multiset(line)[x] - 1 else multiset(line)[x]
  {
    ResidueMultiset(line);
  }

  lemma NumericIsLoose(line: string)
    requires IsNumeric(line)
    ensures LooseNumber(line)
  {
    var t := Residue(line);
    forall x | x in Separators ensures multiset(line)[x] <= 1 {
      ResidueCount(line, x);
      assert x !in t;
    }
    forall k | 0 <= k < |line| && line[k] !in Separators ensures IsDigit(line[k]) {
      ResidueCount(line, line[k]);
      assert line[k] in multiset(t);
    }
    ResidueCount(line, t[0]);
    assert t[0] in multiset(line);
    var k :| 0 <= k < |line| && line[k] == t[0];
  }

  lemma LooseIsNumeric(line: string)
    requires LooseNumber(line)
    ensures IsNumeric(line)
  {
    var t := Residue(line);
    forall j | 0 <= j < |t| ensures IsDigit(t[j]) {
      var x := t[j];
      ResidueCount(line, x);
      assert x in multiset(t);
      assert x in multiset(line);
      var k :| 0 <= k < |line| && line[k] == x;
      assert x !in Separators;
    }
    var k :| 0 <= k < |line| && IsDigit(line[k]);
    ResidueCount(line, line[k]);
    assert line[k] in multiset(t);
  }

  /** The numeric test accepts exactly the loose numbers. */
  lemma IsNumericCharacterisation(line: string)
    ensures IsNumeric(line) <==> LooseNumber(line)
  {
    if IsNumeric(line) { NumericIsLoose(line); }
    if LooseNumber(line) { LooseIsNumeric(line); }
  }

  /** A line that starts with a character other than a digit or a separator, such as the
      letter of a key, is not numeric. */
  lemma NotNumericAtStart(line: string)
    requires line != [] && !IsDigit(line[0]) && line[0] !in Separators
    ensures !IsNumeric(line)
  {
    if IsNumeric(line) {
      NumericIsLoose(line);
      assert false;
    }
  }

  /** Lines whose fate the loose test decides in ways worth pinning down. */
  lemma RejectedSeparatorsOnly()
    ensures !IsNumeric("") && !IsNumeric(".") && !IsNumeric("-") && !IsNumeric(",") && !IsNumeric("-.,")
  {
  }

  /** A comma decimal separator: `12,5`. */
  lemma CommaDecimalIsNumeric()
    ensures IsNumeric("12,5")
  {
    assert RemoveFirst("12,5", '.') == "12,5";
    assert RemoveFirst("12,5", ',') == "125";
    assert RemoveFirst("125", '-') == "125";
  }

  /** A point decimal separator: `12.5`. */
  lemma PointDecimalIsNumeric()
    ensures IsNumeric("12.5")
  {
    assert RemoveFirst("12.5", '.') == "125";
    assert RemoveFirst("125", ',') == "125";
    assert RemoveFirst("125", '-') == "125";
  }

  /** A negative integer: `-123`. */
  lemma NegativeIsNumeric()
    ensures IsNumeric("-123")
  {
    assert RemoveFirst("-123", '.') == "-123";
    assert RemoveFirst("-123", ',') == "-123";
    assert RemoveFirst("-123", '-') == "123";
  }

  /** The minus sign may stand anywhere: `1-2` passes although it is no number. */
  lemma InnerMinusIsNumeric()
    ensures IsNumeric("1-2")
  {
    assert RemoveFirst("1-2", '.') == "1-2";
    assert RemoveFirst("1-2", ',') == "1-2";
    assert RemoveFirst("1-2", '-') == "12";
  }
}
