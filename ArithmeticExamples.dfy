/** Fixtures of the operator parser: the body predicate of an arithmetic test
    clause, the renaming of ` div ` and two consequences of how the operator
    is chosen and the text split. */
module ArithmeticExamples {
  import opened Results
  import opened KotlinStrings
  import opened Model
  import opened Parser
  import opened ParserProperties

  /** A character of `t` that `s` lacks keeps `t` out of `s`. */
  lemma Lacks(s: string, t: string, c: char)
    requires c in t && c !in s
    ensures !Contains(s, t)
  {
    ContainsKeepsChars(s, t);
  }

  /** The search for an operator passes over entry `from` of the table when
      `s` lacks one of its characters. */
  lemma Skip(s: string, from: nat, c: char)
    requires from < |SPECIAL_TERMS| && c in SPECIAL_TERMS[from] && c !in s
    ensures SpecialTermIndexFrom(s, from) == SpecialTermIndexFrom(s, from + 1)
  {
    Lacks(s, SPECIAL_TERMS[from], c);
  }

  /** The search stops at entry `k` when `s` contains it. */
  lemma Hit(s: string, k: nat)
    requires k < |SPECIAL_TERMS| && Contains(s, SPECIAL_TERMS[k])
    ensures SpecialTermIndexFrom(s, k) == k
  {
  }

  /** One step of the operator parser on `a op b`, where `op` is the operator
      chosen, named `name`, and the first cut at `op` falls right after `a`:
      the operator's name applied to the term `a` and the operator expression
      up to the next `op` in `b`. */
  lemma OperatorStep(a: string, k: nat, op: string, name: string, b: string)
    requires k < |SPECIAL_TERMS| && SPECIAL_TERMS[k] == op && OperatorName(op) == name
    requires SpecialTermIndex(a + op + b) == k && Split(a + op + b, op) == [a] + Split(b, op)
    requires ParseTerm(Trim(a)).Ok? && ParseSpecialPredicate(Trim(Split(b, op)[0])).Ok?
    ensures ParseSpecialPredicate(a + op + b) ==
              Ok(Predicate(name, [ParseTerm(Trim(a)).value, ParseSpecialPredicate(Trim(Split(b, op)[0])).value]))
  {
    assert |Trim(a)| <= |a|;
    assert a + op + b != op;
  }

  /** The first cut at `d` of `a + d + b` falls right after `a` when `a` lacks
      the first character of `d`. */
  lemma OperatorCut(a: string, d: string, b: string)
    requires d != [] && d[0] !in a
    ensures Split(a + d + b, d) == [a] + Split(b, d)
  {
    NotInside(a, d, b);
    SplitAfterFirst(a, d, b);
  }

  /** A delimiter whose first character is not in `a` does not start inside `a`. */
  lemma NotInside(a: string, d: string, b: string)
    requires d != [] && d[0] !in a
    ensures forall j :: 0 <= j < |a| ==> !OccursAt(a + d + b, d, j)
  {
    forall j | 0 <= j < |a| ensures !OccursAt(a + d + b, d, j) {
      assert (a + d + b)[j] == a[j];
    }
  }

  /** The characters of `a + op + b` are those of its three parts. */
  lemma PartsAvoid(a: string, op: string, b: string, marks: set<char>)
    requires Avoids(a, marks) && Avoids(op, marks) && Avoids(b, marks)
    ensures forall c :: c in a + op + b ==> c !in marks
  {
    AvoidsAt(a, marks);
    AvoidsAt(op, marks);
    AvoidsAt(b, marks);
  }

  const PLUS_FREE: set<char> := {'i', '>', '<', '='}

  /** `+` is entry 7 of the table; each entry before it holds a character of
      `PLUS_FREE`. */
  lemma PlusChosen(s: string)
    requires '+' in s && forall c :: c in s ==> c !in PLUS_FREE
    ensures SpecialTermIndex(s) == 7
  {
    Skip(s, 0, 'i');
    Skip(s, 1, '>');
    Skip(s, 2, '<');
    Skip(s, 3, '>');
    Skip(s, 4, '=');
    Skip(s, 5, '=');
    Skip(s, 6, '=');
    ContainsChar(s, '+');
    assert SPECIAL_TERMS[7] == "+";
    Hit(s, 7);
  }

  lemma PlusParts(a: string, b: string)
    requires Avoids(a, PLUS_FREE) && Avoids(b, PLUS_FREE)
    ensures SpecialTermIndex(a + "+" + b) == 7
  {
    PartsAvoid(a, "+", b, PLUS_FREE);
    PlusChosen(a + "+" + b);
  }

  /** `a + b` with no `+` in `a`. */
  lemma PlusOperator(a: string, b: string)
    requires '+' !in a && Avoids(a, PLUS_FREE) && Avoids(b, PLUS_FREE)
    requires ParseTerm(Trim(a)).Ok? && ParseSpecialPredicate(Trim(Split(b, "+")[0])).Ok?
    ensures ParseSpecialPredicate(a + "+" + b) ==
              Ok(Predicate("+", [ParseTerm(Trim(a)).value, ParseSpecialPredicate(Trim(Split(b, "+")[0])).value]))
  {
    PlusParts(a, b);
    PlusEntry();
    OperatorCut(a, "+", b);
    OperatorStep(a, 7, "+", "+", b);
  }

  const DIV_FREE: set<char> := {'s', '>', '<', '=', '+', '-', '*', '/', '\\'}

  /** ` div ` is the last entry of the table; each entry before it holds a
      character of `DIV_FREE`. */
  lemma DivChosen(s: string)
    requires Contains(s, " div ") && forall c :: c in s ==> c !in DIV_FREE
    ensures SpecialTermIndex(s) == 12
  {
    DivSkipsFirst(s);
    DivSkipsSecond(s);
    assert SPECIAL_TERMS[12] == " div ";
    Hit(s, 12);
  }

  /** Entries 0 to 5 of the table each hold a character of `DIV_FREE`. */
  lemma DivSkipsFirst(s: string)
    requires forall c :: c in s ==> c !in DIV_FREE
    ensures SpecialTermIndexFrom(s, 0) == SpecialTermIndexFrom(s, 6)
  {
    Skip(s, 0, 's');
    Skip(s, 1, '>');
    Skip(s, 2, '<');
    Skip(s, 3, '>');
    Skip(s, 4, '=');
    Skip(s, 5, '=');
  }

  /** Entries 6 to 11 of the table each hold a character of `DIV_FREE`. */
  lemma DivSkipsSecond(s: string)
    requires forall c :: c in s ==> c !in DIV_FREE
    ensures SpecialTermIndexFrom(s, 6) == SpecialTermIndexFrom(s, 12)
  {
    Skip(s, 6, '=');
    Skip(s, 7, '+');
    Skip(s, 8, '-');
    Skip(s, 9, '*');
    Skip(s, 10, '/');
    Skip(s, 11, '\\');
  }

  lemma DivParts(a: string, b: string)
    requires ' ' !in a && Avoids(a, DIV_FREE) && Avoids(b, DIV_FREE)
    ensures SpecialTermIndex(a + " div " + b) == 12
  {
    PartsAvoid(a, " div ", b, DIV_FREE);
    NotInside(a, " div ", b);
    SplitAfterFirst(a, " div ", b);
    DivChosen(a + " div " + b);
  }

  /** `a div b` with no space in `a`: the one operator that is renamed, to `/`. */
  lemma DivOperator(a: string, b: string)
    requires ' ' !in a && Avoids(a, DIV_FREE) && Avoids(b, DIV_FREE)
    requires ParseTerm(Trim(a)).Ok? && ParseSpecialPredicate(Trim(Split(b, " div ")[0])).Ok?
    ensures ParseSpecialPredicate(a + " div " + b) ==
              Ok(Predicate("/", [ParseTerm(Trim(a)).value, ParseSpecialPredicate(Trim(Split(b, " div ")[0])).value]))
  {
    DivParts(a, b);
    DivEntry();
    OperatorCut(a, " div ", b);
    OperatorStep(a, 12, " div ", "/", b);
  }

  /** `a is b` with no space in `a`: ` is ` is the first entry of the table,
      chosen whenever it occurs. */
  lemma IsOperator(a: string, b: string)
    requires ' ' !in a
    requires ParseTerm(Trim(a)).Ok? && ParseSpecialPredicate(Trim(Split(b, " is ")[0])).Ok?
    ensures ParseSpecialPredicate(a + " is " + b) ==
              Ok(Predicate("is", [ParseTerm(Trim(a)).value, ParseSpecialPredicate(Trim(Split(b, " is ")[0])).value]))
  {
    IsEntry();
    IsChosen(a, b);
    OperatorCut(a, " is ", b);
    OperatorStep(a, 0, " is ", "is", b);
  }

  /** `>` is the second entry of the table, after ` is `. */
  lemma GreaterChosen(s: string)
    requires '>' in s && 'i' !in s
    ensures SpecialTermIndex(s) == 1
  {
    Skip(s, 0, 'i');
    ContainsChar(s, '>');
    assert SPECIAL_TERMS[1] == ">";
    Hit(s, 1);
  }

  lemma GreaterParts(a: string, b: string)
    requires 'i' !in a && 'i' !in b
    ensures SpecialTermIndex(a + ">" + b) == 1
  {
    var s := a + ">" + b;
    assert '>' in s && 'i' !in s;
    GreaterChosen(s);
  }

  /** `a > b` with no `>` in `a`. */
  lemma GreaterOperator(a: string, b: string)
    requires '>' !in a && 'i' !in a && 'i' !in b
    requires ParseTerm(Trim(a)).Ok? && ParseSpecialPredicate(Trim(Split(b, ">")[0])).Ok?
    ensures ParseSpecialPredicate(a + ">" + b) ==
              Ok(Predicate(">", [ParseTerm(Trim(a)).value, ParseSpecialPredicate(Trim(Split(b, ">")[0])).value]))
  {
    GreaterParts(a, b);
    GreaterEntry();
    OperatorCut(a, ">", b);
    OperatorStep(a, 1, ">", ">", b);
  }

  /** ` is ` is entry 0 of the table and is named `is`. */
  lemma IsEntry()
    ensures SPECIAL_TERMS[0] == " is " && OperatorName(" is ") == "is"
  {
    assert " is " !in SPECIAL_MAPPING by {
      assert SPECIAL_MAPPING.Keys == {" div "};
    }
    assert " is " == " " + "is" + " ";
    TrimPadded("is");
  }

  /** ` is ` is chosen whenever it occurs. */
  lemma IsChosen(a: string, b: string)
    requires SPECIAL_TERMS[0] == " is "
    ensures SpecialTermIndex(a + " is " + b) == 0
  {
    var s := a + " is " + b;
    assert OccursAt(s, " is ", |a|) by {
      assert s[|a|..|a| + 4] == " is ";
    }
    Hit(s, 0);
  }

  /** `>` is entry 1 of the table and keeps its name. */
  lemma GreaterEntry()
    ensures SPECIAL_TERMS[1] == ">" && OperatorName(">") == ">"
  {
    assert ">" !in SPECIAL_MAPPING by {
      assert SPECIAL_MAPPING.Keys == {" div "};
    }
    TrimOfTrimmed(">");
  }

  /** `+` is entry 7 of the table and keeps its name. */
  lemma PlusEntry()
    ensures SPECIAL_TERMS[7] == "+" && OperatorName("+") == "+"
  {
    assert "+" !in SPECIAL_MAPPING by {
      assert SPECIAL_MAPPING.Keys == {" div "};
    }
    TrimOfTrimmed("+");
  }

  /** ` div ` is entry 12 of the table and is renamed to `/`. */
  lemma DivEntry()
    ensures SPECIAL_TERMS[12] == " div " && OperatorName(" div ") == "/"
  {
  }

  /** An operand without operator characters is a single term. */
  lemma Operand(s: string)
    requires s != [] && NoMarks(s)
    ensures ParseSpecialPredicate(s) == ParseTerm(s)
  {
    NoOperator(s);
    PlainOperand(s);
  }

  /** An operand that holds no operator of the table is a single term. */
  lemma PlainOperand(s: string)
    requires s != [] && !HasSpecialTerm(s)
    ensures ParseSpecialPredicate(s) == ParseTerm(s)
  {
  }

  /** A trailing `.` is dropped from a term. */
  lemma DottedTerm(x: string)
    requires x != [] && x[0] !in WHITESPACE && x[|x| - 1] !in WHITESPACE + {'.'}
    ensures ParseTerm(x + ".") == ParseTerm(x)
  {
    assert (x + ".")[..|x|] == x;
    assert TrimEnd(x + ".", {'.'}) == x;
  }

  // ---------------------------------------------------------------------------
  // X is 1 + 2.

  /** The left operand `1 ` of the fixtures with `+`. */
  lemma LeftOne()
    ensures '+' !in "1 " && Avoids("1 ", PLUS_FREE)
    ensures Trim("1 ") == "1" && ParseTerm("1") == Ok(Atom("1"))
  {
    TrimPadded("1");
    ParseTrimmedText("1");
  }

  lemma RightTwoDot()
    ensures Avoids(" 2.", PLUS_FREE) && Split(" 2.", "+") == [" 2."] && Trim(" 2.") == "2."
  {
    TrimPadded("2.");
    ContainsChar(" 2.", '+');
  }

  lemma TwoDotOperand()
    ensures ParseSpecialPredicate("2.") == Ok(Atom("2"))
  {
    TwoDotTerm();
    TwoDotPlain();
    Operand("2.");
  }

  lemma TwoDotTerm()
    ensures ParseTerm("2.") == Ok(Atom("2"))
  {
    assert "2" + "." == "2.";
    DottedTerm("2");
    ParseTrimmedText("2");
  }

  lemma TwoDotPlain()
    ensures "2." != [] && NoMarks("2.")
  {
  }

  lemma TwoOperand()
    ensures ParseSpecialPredicate("2") == Ok(Atom("2"))
  {
    ParseTrimmedText("2");
    assert NoMarks("2");
    Operand("2");
  }

  lemma SumText()
    ensures "1 + 2." == "1 " + "+" + " 2."
  {
  }

  /** `1 + 2.` is `+(1, 2)`: the final `.` is dropped with the right operand. */
  lemma SumExample()
    ensures ParseSpecialPredicate("1 + 2.") == Ok(Predicate("+", [Atom("1"), Atom("2")]))
  {
    SumText();
    LeftOne();
    RightTwoDot();
    TwoDotOperand();
    PlusOperator("1 ", " 2.");
  }

  lemma IsOperands()
    ensures ' ' !in "X" && Trim("X") == "X" && ParseTerm("X") == Ok(Variable("X"))
    ensures Split("1 + 2.", " is ") == ["1 + 2."] && Trim("1 + 2.") == "1 + 2."
  {
    IsLeft();
    IsRight();
  }

  lemma IsLeft()
    ensures ' ' !in "X" && Trim("X") == "X" && ParseTerm("X") == Ok(Variable("X"))
  {
    TrimOfTrimmed("X");
    ParseTrimmedText("X");
  }

  lemma IsRight()
    ensures Split("1 + 2.", " is ") == ["1 + 2."] && Trim("1 + 2.") == "1 + 2."
  {
    Lacks("1 + 2.", " is ", 'i');
    TrimOfTrimmed("1 + 2.");
  }

  lemma IsText()
    ensures "X is 1 + 2." == "X" + " is " + "1 + 2."
  {
  }

  /** `X is 1 + 2.`, the body of the clause `p(X) :- X is 1 + 2.`, is
      `is(X, +(1, 2))`. */
  lemma IsExample()
    ensures ParseSpecialPredicate("X is 1 + 2.") ==
              Ok(Predicate("is", [Variable("X"), Predicate("+", [Atom("1"), Atom("2")])]))
  {
    IsText();
    IsOperands();
    SumExample();
    IsOperator("X", "1 + 2.");
  }

  /** The same text as a predicate: with no `(` the whole text goes to the
      operator parser, and its result is a predicate. */
  lemma ArithmeticPredicateExample()
    ensures ParsePredicate("X is 1 + 2.") ==
              Ok(Predicate("is", [Variable("X"), Predicate("+", [Atom("1"), Atom("2")])]))
  {
    ArithmeticPredicateText();
    IsExample();
  }

  lemma ArithmeticPredicateText()
    ensures HasSpecialTerm("X is 1 + 2.")
    ensures Trim(SubstringBefore("X is 1 + 2.", "(")) == "X is 1 + 2."
  {
    ArithmeticHasOperator();
    ArithmeticName();
  }

  lemma ArithmeticHasOperator()
    ensures HasSpecialTerm("X is 1 + 2.")
  {
    IsText();
    IsEntry();
    IsChosen("X", "1 + 2.");
  }

  lemma ArithmeticName()
    ensures Trim(SubstringBefore("X is 1 + 2.", "(")) == "X is 1 + 2."
  {
    Lacks("X is 1 + 2.", "(", '(');
    TrimOfTrimmed("X is 1 + 2.");
  }

  // ---------------------------------------------------------------------------
  // 1 div 2

  lemma DivOperands()
    ensures ' ' !in "1" && Avoids("1", DIV_FREE) && Avoids("2", DIV_FREE)
    ensures Trim("1") == "1" && ParseTerm("1") == Ok(Atom("1"))
    ensures Split("2", " div ") == ["2"] && Trim("2") == "2"
  {
    TrimOfTrimmed("1");
    TrimOfTrimmed("2");
    ParseTrimmedText("1");
    Lacks("2", " div ", 'd');
  }

  lemma DivText()
    ensures "1 div 2" == "1" + " div " + "2"
  {
  }

  /** `1 div 2` is `/(1, 2)`: ` div ` is the one operator that is renamed. */
  lemma DivExample()
    ensures ParseSpecialPredicate("1 div 2") == Ok(Predicate("/", [Atom("1"), Atom("2")]))
  {
    DivText();
    DivOperands();
    TwoOperand();
    DivOperator("1", "2");
  }

  // ---------------------------------------------------------------------------
  // Consequences of the split

  lemma ChainSplit()
    ensures Avoids(" 2 + 3", PLUS_FREE)
    ensures Split(" 2 + 3", "+")[0] == " 2 "
  {
    assert Avoids(" 2 + 3", PLUS_FREE);
    assert " 2 + 3" == " 2 " + ['+'] + " 3";
    SplitAfterChar(" 2 ", '+', " 3");
  }

  lemma ChainRight()
    ensures Avoids(" 2 + 3", PLUS_FREE)
    ensures Split(" 2 + 3", "+")[0] == " 2 " && Trim(" 2 ") == "2"
  {
    assert " 2 " == " " + "2" + " ";
    TrimPadded("2");
    ChainSplit();
  }

  lemma ChainText()
    ensures "1 + 2 + 3" == "1 " + "+" + " 2 + 3"
  {
  }

  /** `1 + 2 + 3` is `+(1, 2)`: only the text between the first and the second
      `+` becomes the right operand, and `3` is lost. */
  lemma SecondOperandOnly()
    ensures ParseSpecialPredicate("1 + 2 + 3") == Ok(Predicate("+", [Atom("1"), Atom("2")]))
  {
    ChainText();
    LeftOne();
    ChainRight();
    TwoOperand();
    PlusOperator("1 ", " 2 + 3");
  }

  lemma GreaterLeft()
    ensures '>' !in "X " && 'i' !in "X "
    ensures Trim("X ") == "X" && ParseTerm("X") == Ok(Variable("X"))
  {
    TrimPadded("X");
    ParseTrimmedText("X");
  }

  lemma GreaterRight()
    ensures 'i' !in "= Y" && Split("= Y", ">") == ["= Y"] && Trim("= Y") == "= Y"
  {
    ContainsChar("= Y", '>');
    TrimOfTrimmed("= Y");
  }

  lemma EqualsNoOperator()
    ensures !HasSpecialTerm("= Y")
  {
    assert "= Y" == "=" + " Y";
    assert NoMarks(" Y");
    LoneEquals(" Y");
  }

  lemma EqualsOperand()
    ensures ParseSpecialPredicate("= Y") == Ok(Atom("= Y"))
  {
    EqualsNoOperator();
    PlainOperand("= Y");
    EqualsTerm();
  }

  lemma EqualsTerm()
    ensures ParseTerm("= Y") == Ok(Atom("= Y"))
  {
    ParseTrimmedText("= Y");
  }

  /** A text that is `=` followed by text without operator characters holds no
      operator of the table: a single `=` is not one. */
  lemma LoneEquals(rest: string)
    requires NoMarks(rest)
    ensures !HasSpecialTerm("=" + rest)
  {
    var s := "=" + rest;
    AvoidsAt(rest, OPERATOR_MARKS);
    assert forall c :: c in s ==> c == '=' || c !in OPERATOR_MARKS;
    NoComparison(s);
    LoneMark('=', rest);
    assert SPECIAL_TERMS[6] == ['=', '='] && s == ['='] + rest;
    assert SpecialTermIndexFrom(s, 6) == SpecialTermIndexFrom(s, 7);
    NoArithmetic(s);
  }

  /** Entries 0 to 5 of the table each hold an operator character other than `=`. */
  lemma NoComparison(s: string)
    requires forall c :: c in s ==> c == '=' || c !in OPERATOR_MARKS
    ensures SpecialTermIndexFrom(s, 0) == SpecialTermIndexFrom(s, 6)
  {
    Skip(s, 0, 'i');
    Skip(s, 1, '>');
    Skip(s, 2, '<');
    Skip(s, 3, '>');
    Skip(s, 4, '<');
    Skip(s, 5, '\\');
  }

  /** Entries 7 to 12 of the table each hold an operator character other than `=`. */
  lemma NoArithmetic(s: string)
    requires forall c :: c in s ==> c == '=' || c !in OPERATOR_MARKS
    ensures SpecialTermIndexFrom(s, 7) == -1
  {
    Skip(s, 7, '+');
    Skip(s, 8, '-');
    Skip(s, 9, '*');
    Skip(s, 10, '/');
    Skip(s, 11, '\\');
    Skip(s, 12, 'd');
  }

  /** A character only at the start is never doubled. */
  lemma LoneMark(c: char, rest: string)
    requires c !in rest
    ensures !Contains([c] + rest, [c, c])
  {
    var s := [c] + rest;
    forall i | 0 <= i ensures !OccursAt(s, [c, c], i) {
      if i + 2 <= |s| {
        assert s[i..i + 2][1] == s[i + 1] == rest[i];
      }
    }
  }

  lemma GreaterText()
    ensures "X >= Y" == "X " + ">" + "= Y"
  {
  }

  /** `X >= Y` splits at `>`, which comes first in the table, and the right
      operand `= Y` holds no operator, so it becomes one Atom. */
  lemma GreaterOrEqualExample()
    ensures ParseSpecialPredicate("X >= Y") == Ok(Predicate(">", [Variable("X"), Atom("= Y")]))
  {
    GreaterText();
    GreaterLeft();
    GreaterRight();
    EqualsOperand();
    GreaterOperator("X ", "= Y");
  }
}
