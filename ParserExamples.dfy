/** The parser's unit-test fixtures, each stated as a lemma about the model. */
module ParserExamples {
  import opened Results
  import opened KotlinStrings
  import opened Model
  import opened Parser
  import opened ParserProperties

  /** `parseTerm("a")` is the Atom `a`. */
  lemma AtomExample()
    ensures ParseTerm("a") == Ok(Atom("a"))
  {
    ParseTrimmedText("a");
  }

  /** `parseTerm("X")` is the Variable `X`. */
  lemma VariableExample()
    ensures ParseTerm("X") == Ok(Variable("X"))
  {
    ParseTrimmedText("X");
  }

  /** `parsePredicate("p(a, X)")` is `p(a, X)` with an Atom and a Variable. */
  lemma PredicateExample()
    ensures ParsePredicate("p(a, X)") == Ok(Predicate("p", [Atom("a"), Variable("X")]))
  {
    PlainArguments();
    assert "p(a, X)" == "p" + "(" + ("a" + ", " + "X") + ")";
    TwoArgumentPredicate("p", "a", "X");
  }

  /** The pieces of `p(a, X)` meet the conditions of `TwoArgumentPredicate`. */
  lemma PlainArguments()
    ensures NoMarks("p") && NoMarks("a") && NoMarks("X")
    ensures PlainElement("a") && PlainElement("X")
    ensures ParseTerm("a") == Ok(Atom("a")) && ParseTerm("X") == Ok(Variable("X"))
  {
    assert NoMarks("p") && NoMarks("a") && NoMarks("X");
    assert PlainElement("a") && PlainElement("X");
    AtomExample();
    VariableExample();
  }

  /** `name(x, y)` holds no operator when none of its three parts has an
      operator character. */
  lemma PlainTwoArgumentCall(name: string, x: string, y: string)
    requires NoMarks(name) && NoMarks(x) && NoMarks(y)
    ensures !HasSpecialTerm(name + "(" + (x + ", " + y) + ")")
  {
    assert NoMarks(", ");
    AvoidsAppend(x, ", ", OPERATOR_MARKS);
    AvoidsAppend(x + ", ", y, OPERATOR_MARKS);
    PlainCall(name, x + ", " + y);
  }

  /** `name(x, y)` for plain arguments and a name without operator characters. */
  lemma TwoArgumentPredicate(name: string, x: string, y: string)
    requires name != [] && name[0] !in WHITESPACE && name[|name| - 1] !in WHITESPACE && '(' !in name
    requires PlainElement(x) && PlainElement(y) && y[|y| - 1] !in {')', '.'}
    requires ParseTerm(x).Ok? && ParseTerm(y).Ok?
    requires NoMarks(name) && NoMarks(x) && NoMarks(y)
    ensures ParsePredicate(name + "(" + (x + ", " + y) + ")") ==
              Ok(Predicate(name, [ParseTerm(x).value, ParseTerm(y).value]))
  {
    TwoTerms(x, y);
    var args := x + ", " + y;
    assert args[0] == x[0] && args[|args| - 1] == y[|y| - 1];
    PlainTwoArgumentCall(name, x, y);
    PlainPredicate(name, args);
  }

  /** The argument text `x, y` for plain arguments. */
  lemma TwoTerms(x: string, y: string)
    requires PlainElement(x) && PlainElement(y)
    requires ParseTerm(x).Ok? && ParseTerm(y).Ok?
    ensures ParseTerms(x + ", " + y) == Ok([ParseTerm(x).value, ParseTerm(y).value])
  {
    assert Join([x, y], ", ") == x + ", " + y by {
      assert [x, y][1..] == [y];
    }
    PlainTerms([x, y]);
    MapAllPair(x, y, ParseTerm);
  }

  /** `name(x)` for a plain argument and a name without operator characters. */
  lemma OneArgumentPredicate(name: string, x: string)
    requires name != [] && name[0] !in WHITESPACE && name[|name| - 1] !in WHITESPACE && '(' !in name
    requires PlainElement(x) && x[|x| - 1] !in {')', '.'}
    requires ParseTerm(x).Ok?
    requires NoMarks(name) && NoMarks(x)
    ensures ParsePredicate(name + "(" + x + ")") == Ok(Predicate(name, [ParseTerm(x).value]))
  {
    assert Join([x], ", ") == x;
    PlainTerms([x]);
    var ts := ParseTerms(x);
    assert [x][0] == x;
    assert ts.Ok? && |ts.value| == 1 && ts.value[0] == ParseTerm(x).value;
    assert ts.value == [ParseTerm(x).value];
    PlainCall(name, x);
    PlainPredicate(name, x);
  }

  /** The content `a, b, c` is the chain `.(a, .(b, .(c)))`. */
  lemma PlainListExample()
    ensures ParseListTerm("a, b, c") ==
              Ok(Predicate(".", [Atom("a"), Predicate(".", [Atom("b"), Predicate(".", [Atom("c")])])]))
  {
    assert PlainElement("a") && PlainElement("b") && PlainElement("c");
    ParseTrimmedText("a");
    ParseTrimmedText("b");
    ParseTrimmedText("c");
    assert "a, b, c" == "a" + ", " + "b" + ", " + "c";
    ThreePlainElements("a", "b", "c");
  }

  /** The content `a, b, c | X` ends in the cell `.(c, X)` itself. */
  lemma ConsListExample()
    ensures ParseListTerm("a, b, c | X") ==
              Ok(Predicate(".", [Atom("a"), Predicate(".", [Atom("b"), Predicate(".", [Atom("c"), Variable("X")])])]))
  {
    ConsListElements();
    ConsListText();
    TwoPlainElementsAndCons("a", "b", "c", "X");
  }

  lemma ConsListElements()
    ensures PlainElement("a") && PlainElement("b") && PlainElement("c") && PlainElement("X")
    ensures ParseTerm("a") == Ok(Atom("a")) && ParseTerm("b") == Ok(Atom("b"))
    ensures ParseTerm("c") == Ok(Atom("c")) && ParseTerm("X") == Ok(Variable("X"))
  {
    assert PlainElement("a") && PlainElement("b") && PlainElement("c") && PlainElement("X");
    ParseTrimmedText("a");
    ParseTrimmedText("b");
    ParseTrimmedText("c");
    ParseTrimmedText("X");
  }

  lemma ConsListText()
    ensures "a, b, c | X" == "a" + ", " + "b" + ", " + ("c" + " | " + "X")
  {
  }

  /** `a, b, c` for plain elements is `.(a, .(b, .(c)))`. */
  lemma ThreePlainElements(a: string, b: string, c: string)
    requires PlainElement(a) && PlainElement(b) && PlainElement(c)
    requires ParseTerm(a).Ok? && ParseTerm(b).Ok? && ParseTerm(c).Ok?
    ensures ParseListTerm(a + ", " + b + ", " + c) ==
              Ok(Predicate(".", [ParseTerm(a).value, Predicate(".", [ParseTerm(b).value,
                                 Predicate(".", [ParseTerm(c).value])])]))
  {
    TrimOfTrimmed(c);
    ListLastPlain(c);
    TwoElementsBefore(a, b, c);
  }

  /** `a, b, h | t` for plain texts is `.(a, .(b, .(h, t)))`. */
  lemma TwoPlainElementsAndCons(a: string, b: string, h: string, t: string)
    requires PlainElement(a) && PlainElement(b) && PlainElement(h) && PlainElement(t)
    requires ParseTerm(a).Ok? && ParseTerm(b).Ok? && ParseTerm(h).Ok? && ParseTerm(t).Ok?
    ensures ParseListTerm(a + ", " + b + ", " + (h + " | " + t)) ==
              Ok(Predicate(".", [ParseTerm(a).value, Predicate(".", [ParseTerm(b).value,
                                 Predicate(".", [ParseTerm(h).value, ParseTerm(t).value])])]))
  {
    ConsTextTrimmed(h, t);
    ListLastCons(h, t);
    TwoElementsBefore(a, b, h + " | " + t);
  }

  /** Two plain elements in front of a last element `last` give two cells
      over the list `last` parses to. */
  lemma TwoElementsBefore(a: string, b: string, last: string)
    requires PlainElement(a) && PlainElement(b) && last != [] && Trim(last) == last
    requires ParseTerm(a).Ok? && ParseTerm(b).Ok? && ParseListTerm(last).Ok?
    ensures ParseListTerm(a + ", " + b + ", " + last) ==
              Ok(Predicate(".", [ParseTerm(a).value, Predicate(".", [ParseTerm(b).value, ParseListTerm(last).value])]))
  {
    MapAllPair(a, b, ParseTerm);
    ChainOfTwo(ParseTerm(a).value, ParseTerm(b).value, ParseListTerm(last).value);
    ElementsOfTwo(a, b, last);
    ListElements([a, b], last);
  }

  lemma ConsTextTrimmed(h: string, t: string)
    requires PlainElement(h) && PlainElement(t)
    ensures Trim(h + " | " + t) == h + " | " + t
  {
    var e := h + " | " + t;
    assert e[0] == h[0] && e[|e| - 1] == t[|t| - 1];
    TrimOfTrimmed(e);
  }

  lemma ElementsOfTwo(a: string, b: string, last: string)
    ensures ElementsText([a, b], last) == a + ", " + b + ", " + last
  {
    assert [a, b][1..] == [b] && [b][1..] == [];
    assert ElementsText([b], last) == b + ", " + last;
    assert a + ", " + (b + ", " + last) == a + ", " + b + ", " + last;
  }

  lemma ChainOfTwo(a: Term, b: Term, last: PredicateTerm)
    ensures Chain([a, b], last) == Predicate(".", [a, Predicate(".", [b, last])])
  {
    assert [a, b][1..] == [b];
    assert [b][1..] == [];
    assert Chain([b], last) == Predicate(".", [b, last]);
  }

  /** The only top-level comma of `q(X, Y), r(Y)` is the one after `q(X, Y)`;
      the comma inside the parentheses is at depth one. */
  lemma SplitCommasExample()
    ensures TopLevelCommas("q(X, Y), r(Y)", 13) == [7]
  {
    var s := "q(X, Y), r(Y)";
    TopLevelCommasExact(s, |s|);
    var cuts := TopLevelCommas(s, |s|);
    assert Depth(s, 7, '(', ')') == 0 && Depth(s, 7, '[', ']') == 0;
    assert IsTopLevelComma(s, 7);
    assert Depth(s, 4, '(', ')') == 1;
    assert forall i :: 0 <= i < |s| && i != 7 ==> !IsTopLevelComma(s, i);
    assert 7 in cuts;
    assert cuts[0] == 7 && cuts[|cuts| - 1] == 7;
  }

  /** One cut gives the two cleaned pieces either side of it. */
  lemma OneCut(s: string, i: nat, clean: string -> string)
    requires i < |s|
    ensures CutsFit(s, [i]) && Pieces(s, [i], clean) == [clean(s[..i]), clean(s[i + 1..])]
  {
    assert CutsFit(s, [i]);
    var p := Pieces(s, [i], clean);
    assert s[0..i] == s[..i] && s[i + 1..|s|] == s[i + 1..];
    assert p[0] == clean(s[PieceStart([i], 0)..PieceEnd([i], 0, |s|)]);
    assert p[1] == clean(s[PieceStart([i], 1)..PieceEnd([i], 1, |s|)]);
  }

  /** `splitPredicates("q(X, Y), r(Y)")` keeps `q(X, Y)` whole. */
  lemma SplitExample()
    ensures TopLevelPieces("q(X, Y), r(Y)") == ["q(X, Y)", "r(Y)"]
  {
    var s := "q(X, Y), r(Y)";
    assert s[..7] == "q(X, Y)" && s[8..] == " " + "r(Y)";
    TrimOfTrimmed("q(X, Y)");
    TrimPadded("r(Y)");
    SplitCommasExample();
    OneCut(s, 7, Trim);
  }

  /** A clause with one `:-`: the head is the text before it without the final
      `.`, and the body is the predicates of the top-level pieces after it. */
  lemma ClauseOf(h: string, b: string, head: string, pieces: seq<string>)
    requires ':' !in h && ':' !in b
    requires TrimEnd(Trim(h), {'.'}) == head && TopLevelPieces(Trim(b)) == pieces
    requires ParsePredicate(head).Ok? && MapAll(pieces, ParseTrimmedPredicate).Ok?
    ensures ParseClause(h + ":-" + b) ==
              Ok(Clause(ParsePredicate(head).value, MapAll(pieces, ParseTrimmedPredicate).value))
  {
    assert ':' in ":-";
    ContainsKeepsChars(h, ":-");
    ContainsKeepsChars(b, ":-");
    OneNeck(h, b);
  }

  /** `parseClause("p(a, X) :- q(X, Y), r(Y)")`: head `p(a, X)`, body `q(X, Y)`
      and `r(Y)`. */
  lemma ClauseExample()
    ensures ParseClause("p(a, X) :- q(X, Y), r(Y)") ==
              Ok(Clause(Predicate("p", [Atom("a"), Variable("X")]),
                        [Predicate("q", [Variable("X"), Variable("Y")]), Predicate("r", [Variable("Y")])]))
  {
    ClauseNeck();
    ClauseTexts();
    PredicateExample();
    BodyPredicates();
    ClauseOf("p(a, X) ", " q(X, Y), r(Y)", "p(a, X)", ["q(X, Y)", "r(Y)"]);
  }

  lemma ClauseNeck()
    ensures "p(a, X) :- q(X, Y), r(Y)" == "p(a, X) " + ":-" + " q(X, Y), r(Y)"
  {
  }

  /** The head and body texts of the clause fixture. */
  lemma ClauseTexts()
    ensures ':' !in "p(a, X) " && ':' !in " q(X, Y), r(Y)"
    ensures TrimEnd(Trim("p(a, X) "), {'.'}) == "p(a, X)"
    ensures TopLevelPieces(Trim(" q(X, Y), r(Y)")) == ["q(X, Y)", "r(Y)"]
  {
    HeadText();
    BodyText();
  }

  lemma HeadText()
    ensures ':' !in "p(a, X) " && TrimEnd(Trim("p(a, X) "), {'.'}) == "p(a, X)"
  {
    TrimPadded("p(a, X)");
  }

  lemma BodyText()
    ensures ':' !in " q(X, Y), r(Y)" && TopLevelPieces(Trim(" q(X, Y), r(Y)")) == ["q(X, Y)", "r(Y)"]
  {
    TrimPadded("q(X, Y), r(Y)");
    SplitExample();
  }

  /** The body predicates of the clause fixture. */
  lemma BodyPredicates()
    ensures MapAll(["q(X, Y)", "r(Y)"], ParseTrimmedPredicate) ==
              Ok([Predicate("q", [Variable("X"), Variable("Y")]), Predicate("r", [Variable("Y")])])
  {
    TrimOfTrimmed("q(X, Y)");
    TrimOfTrimmed("r(Y)");
    FirstBodyPredicate();
    SecondBodyPredicate();
    MapAllPair("q(X, Y)", "r(Y)", ParseTrimmedPredicate);
  }

  /** `parsePredicate("q(X, Y)")`. */
  lemma FirstBodyPredicate()
    ensures ParsePredicate("q(X, Y)") == Ok(Predicate("q", [Variable("X"), Variable("Y")]))
  {
    FirstBodyArguments();
    assert "q(X, Y)" == "q" + "(" + ("X" + ", " + "Y") + ")";
    TwoArgumentPredicate("q", "X", "Y");
  }

  lemma FirstBodyArguments()
    ensures NoMarks("q") && NoMarks("X") && NoMarks("Y")
    ensures PlainElement("X") && PlainElement("Y")
    ensures ParseTerm("X") == Ok(Variable("X")) && ParseTerm("Y") == Ok(Variable("Y"))
  {
    assert NoMarks("q") && NoMarks("X") && NoMarks("Y");
    assert PlainElement("X") && PlainElement("Y");
    ParseTrimmedText("X");
    ParseTrimmedText("Y");
  }

  /** `parsePredicate("r(Y)")`. */
  lemma SecondBodyPredicate()
    ensures ParsePredicate("r(Y)") == Ok(Predicate("r", [Variable("Y")]))
  {
    SecondBodyArguments();
    assert "r" + "(" + "Y" + ")" == "r(Y)";
    assert "r"[0] == 'r' && 'r' !in WHITESPACE;
    OneArgumentPredicate("r", "Y");
  }

  lemma SecondBodyArguments()
    ensures NoMarks("r") && NoMarks("Y")
    ensures PlainElement("Y") && ParseTerm("Y") == Ok(Variable("Y"))
  {
    assert NoMarks("r") && NoMarks("Y");
    assert PlainElement("Y");
    ParseTrimmedText("Y");
  }

  /** The fact `s(a, b)` of the clause fixtures. */
  lemma TwoAtomFactExample()
    ensures ParsePredicate("s(a, b)") == Ok(Predicate("s", [Atom("a"), Atom("b")]))
  {
    TwoAtomFactArguments();
    assert "s(a, b)" == "s" + "(" + ("a" + ", " + "b") + ")";
    assert "s"[0] == 's' && 's' !in WHITESPACE;
    TwoArgumentPredicate("s", "a", "b");
  }

  lemma TwoAtomFactArguments()
    ensures NoMarks("s") && NoMarks("a") && NoMarks("b")
    ensures PlainElement("a") && PlainElement("b")
    ensures ParseTerm("a") == Ok(Atom("a")) && ParseTerm("b") == Ok(Atom("b"))
  {
    assert NoMarks("s") && NoMarks("a") && NoMarks("b");
    assert PlainElement("a") && PlainElement("b");
    ParseTrimmedText("a");
    ParseTrimmedText("b");
  }

  /** The fact `t(b)` of the clause fixtures. */
  lemma OneAtomFactExample()
    ensures ParsePredicate("t(b)") == Ok(Predicate("t", [Atom("b")]))
  {
    OneAtomFactArguments();
    assert "t(b)" == "t" + "(" + "b" + ")";
    assert 't' !in WHITESPACE;
    assert "t"[0] == 't';
    OneArgumentPredicate("t", "b");
  }

  lemma OneAtomFactArguments()
    ensures NoMarks("t") && NoMarks("b")
    ensures PlainElement("b") && ParseTerm("b") == Ok(Atom("b"))
  {
    assert NoMarks("t") && NoMarks("b");
    assert PlainElement("b");
    ParseTrimmedText("b");
  }

  /** The content `a, b | X` ends in the cell `.(b, X)` itself. */
  lemma ShortConsListExample()
    ensures ParseListTerm("a, b | X") ==
              Ok(Predicate(".", [Atom("a"), Predicate(".", [Atom("b"), Variable("X")])]))
  {
    ShortConsListElements();
    assert "a, b | X" == "a" + ", " + ("b" + " | " + "X");
    PlainElementAndCons("a", "b", "X");
  }

  lemma ShortConsListElements()
    ensures PlainElement("a") && PlainElement("b") && PlainElement("X")
    ensures ParseTerm("a") == Ok(Atom("a")) && ParseTerm("b") == Ok(Atom("b")) && ParseTerm("X") == Ok(Variable("X"))
  {
    assert PlainElement("a") && PlainElement("b") && PlainElement("X");
    ParseTrimmedText("a");
    ParseTrimmedText("b");
    ParseTrimmedText("X");
  }

  /** `a, h | t` for plain texts is `.(a, .(h, t))`. */
  lemma PlainElementAndCons(a: string, h: string, t: string)
    requires PlainElement(a) && PlainElement(h) && PlainElement(t)
    requires ParseTerm(a).Ok? && ParseTerm(h).Ok? && ParseTerm(t).Ok?
    ensures ParseListTerm(a + ", " + (h + " | " + t)) ==
              Ok(Predicate(".", [ParseTerm(a).value, Predicate(".", [ParseTerm(h).value, ParseTerm(t).value])]))
  {
    ConsTextTrimmed(h, t);
    ListLastCons(h, t);
    ListPlainStep(a, h + " | " + t);
  }

  /** The empty list `[]` is the one argument `.()`. */
  lemma EmptyListExample()
    ensures ParseTerms("[]") == Ok([Predicate(".", [])])
  {
    assert StartsWith("[]", "[") && IndexOfFirst("[]", {']'}) == 1;
    assert "[]"[1..1] == [] && "[]"[2..] == [];
    assert ListHead("") == [];
  }

  // ---------------------------------------------------------------------------
  // Lists that end in the empty cell

  /** A blank after `[` loses every element after the first: the content is
      re-sliced by the length of the cleaned `a`, so `[ a, b]` is `.(a, .())`. */
  lemma LeadingBlankListExample()
    ensures ParseTerms("[ a, b]") == Ok([Predicate(".", [Atom("a"), Predicate(".", [])])])
  {
    assert PlainElement("a");
    ParseTrimmedText("a");
    assert " a, b" == " " + "a" + "," + " b";
    LeadingBlankDropsRest("a", " b");
    LeadingBlankListText();
  }

  lemma LeadingBlankListText()
    ensures StartsWith("[ a, b]", "[") && IndexOfFirst("[ a, b]", {']'}) == 6
    ensures "[ a, b]"[1..6] == " a, b" && AfterList("[ a, b]", 6) == []
  {
    assert "[ a, b]"[7..] == [];
  }

  /** A trailing comma ends the chain in the empty cell: `a, ` is `.(a, .())`. */
  lemma TrailingCommaExample()
    ensures ParseListTerm("a, ") == Ok(Predicate(".", [Atom("a"), Predicate(".", [])]))
  {
    assert PlainElement("a");
    ParseTrimmedText("a");
    assert "a, " == "a" + ", " + "";
    ListPlainStep("a", "");
    assert ListHead("") == [];
  }
}
