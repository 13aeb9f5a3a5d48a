/** The hand-rolled Prolog parser: source text to clause strings, clause
    strings to `Clause` trees. Every Kotlin exception of the parser becomes an
    `Err` carrying a `ParseError`. */
module Parser {
  import opened Results
  import opened KotlinStrings
  import opened Model

  datatype ParseError =
    | EmptyTerm              // the first character of an empty term text
    | UnclosedList(text: string)  // a slice ending at -1, for a `[` without `]`
    | NotAPredicate(text: string) // "<text> is not a predicate"

  /** The infix operators, in the order in which they are looked for. */
  const SPECIAL_TERMS: seq<string> :=
    [" is ", ">", "<", ">=", "=<", "\\=", "==", "+", "-", "*", "/", "\\", " div "]

  /** Operators that are renamed in the tree. */
  const SPECIAL_MAPPING: map<string, string> := map[" div " := "/"]

  // ---------------------------------------------------------------------------
  // parseTerm

  /** The text `parseTerm` classifies: trailing dots stripped, then trimmed. */
  function TermText(termStr: string): string {
    Trim(TrimEnd(termStr, {'.'}))
  }

  /** `parseTerm`: a bracketed text is an Atom verbatim; otherwise an upper-case
      first character makes a Variable and any other an Atom. */
  function ParseTerm(termStr: string): (r: Result<Term, ParseError>)
    ensures r.Ok? <==> TermText(termStr) != []
    ensures r.Err? ==> r.error == EmptyTerm
    ensures r.Ok? ==> !r.value.Predicate? && r.value.name == TermText(termStr)
    ensures r.Ok? ==> (r.value.Variable? <==> IsUpperCase(TermText(termStr)[0]))
  {
    var trimmedTerm := TermText(termStr);
    if StartsWith(trimmedTerm, "[") && EndsWith(trimmedTerm, "]") then
      Ok(Atom(trimmedTerm))
    else if trimmedTerm == [] then
      Err(EmptyTerm)
    else if IsUpperCase(trimmedTerm[0]) then
      Ok(Variable(trimmedTerm))
    else
      Ok(Atom(trimmedTerm))
  }

  /** A piece trimmed and then parsed as one term. */
  function ParseTrimmedTerm(s: string): Result<Term, ParseError> {
    ParseTerm(Trim(s))
  }

  // ---------------------------------------------------------------------------
  // parseSpecialPredicate

  /** The position in the table of the first operator, in table order (not in
      text order), that occurs in `s`, or -1 when none occurs. */
  function SpecialTermIndex(s: string): (k: int)
    ensures -1 <= k < |SPECIAL_TERMS|
    ensures k >= 0 ==> Contains(s, SPECIAL_TERMS[k])
    ensures forall j :: 0 <= j < |SPECIAL_TERMS| && (k < 0 || j < k) ==> !Contains(s, SPECIAL_TERMS[j])
  {
    SpecialTermIndexFrom(s, 0)
  }

  function SpecialTermIndexFrom(s: string, from: nat): (k: int)
    requires from <= |SPECIAL_TERMS|
    ensures k == -1 || (from <= k < |SPECIAL_TERMS| && Contains(s, SPECIAL_TERMS[k]))
    ensures forall j :: from <= j < |SPECIAL_TERMS| && (k < 0 || j < k) ==> !Contains(s, SPECIAL_TERMS[j])
    decreases |SPECIAL_TERMS| - from
  {
    if from == |SPECIAL_TERMS| then -1
    else if Contains(s, SPECIAL_TERMS[from]) then from
    else SpecialTermIndexFrom(s, from + 1)
  }

  /** Some operator of the table occurs in `s`. */
  predicate HasSpecialTerm(s: string) {
    SpecialTermIndex(s) >= 0
  }

  /** The name an operator gets in the tree. */
  function OperatorName(op: string): string {
    if op in SPECIAL_MAPPING then SPECIAL_MAPPING[op] else Trim(op)
  }

  /** `parseSpecialPredicate`: splits at the first occurrence of the first
      operator of the table that occurs, parses the left side as one term and
      the text up to the operator's second occurrence as another operator
      expression. Either side's failure is the failure of the whole. */
  function ParseSpecialPredicate(predStr: string): (r: Result<Term, ParseError>)
    ensures predStr == [] ==> r == Ok(Predicate("", []))
    ensures predStr != [] && (SpecialTermIndex(predStr) < 0 || SPECIAL_TERMS[SpecialTermIndex(predStr)] == predStr) ==>
              r == ParseTerm(predStr)
    ensures predStr != [] && SpecialTermIndex(predStr) >= 0 && SPECIAL_TERMS[SpecialTermIndex(predStr)] != predStr ==>
              var op := SPECIAL_TERMS[SpecialTermIndex(predStr)];
              var parts := Split(predStr, op);
              var left := ParseTerm(Trim(parts[0]));
              var right := ParseSpecialPredicate(Trim(parts[1]));
              && (r.Ok? <==> left.Ok? && right.Ok?)
              && (left.Err? ==> r == Err(left.error))
              && (left.Ok? && right.Err? ==> r == Err(right.error))
              && (left.Ok? && right.Ok? ==> r == Ok(Predicate(OperatorName(op), [left.value, right.value])))
    decreases |predStr|
  {
    if predStr == [] then Ok(Predicate("", []))
    else
      var k := SpecialTermIndex(predStr);
      if k < 0 || SPECIAL_TERMS[k] == predStr then ParseTerm(predStr)
      else
        var specialTerm := SPECIAL_TERMS[k];
        var parts := Split(predStr, specialTerm);
        var left :- ParseTerm(Trim(parts[0]));
        var rightPredicate :- ParseSpecialPredicate(Trim(parts[1]));
        Ok(Predicate(OperatorName(specialTerm), [left, rightPredicate]))
  }

  // ---------------------------------------------------------------------------
  // parseListTerm

  /** The first element of a list's content: the text before the first comma,
      trimmed, with every bracket deleted, trimmed again. */
  function ListHead(termStr: string): (r: string)
    ensures |r| <= |Split(termStr, ",")[0]|
  {
    Trim(RemoveChar(RemoveChar(Trim(Split(termStr, ",")[0]), ']'), '['))
  }

  /** What is left for the tail of the list: the content re-sliced one past the
      length of the cleaned first element, then trimmed. The length is that of
      the cleaned element, not of the raw text before the comma. */
  function ListRest(termStr: string): (r: string)
    requires |Split(termStr, ",")| > 1
    ensures |r| < |termStr|
  {
    Trim(termStr[|ListHead(termStr)| + 1..])
  }

  /** The pieces of a cons-cell element, cut at every bar. */
  function BarPieces(currentTermStr: string): seq<string> {
    Split(currentTermStr, "|")
  }

  /** A cons cell: the element is cut at every bar, each piece is trimmed and
      parsed as one term, and the terms are the arguments of a `"."` cell. It
      fails, with an empty term, exactly when some piece is blank. */
  function ParseConsCell(currentTermStr: string): (r: Result<PredicateTerm, ParseError>)
    ensures var pieces := BarPieces(currentTermStr);
      && (r.Ok? <==> forall k :: 0 <= k < |pieces| ==> ParseTerm(Trim(pieces[k])).Ok?)
      && (r.Err? ==> r.error == EmptyTerm)
      && (r.Ok? ==> r.value.name == "." && |r.value.terms| == |pieces|
                    && forall k :: 0 <= k < |pieces| ==> r.value.terms[k] == ParseTerm(Trim(pieces[k])).value)
  {
    var ts :- MapAll(BarPieces(currentTermStr), ParseTrimmedTerm);
    Ok(MakePredicate(".", ts))
  }

  /** One list element: without a bar a single term, with a bar a cons cell. */
  function ListElement(currentTermStr: string): Result<Term, ParseError> {
    if '|' !in currentTermStr then ParseTerm(currentTermStr) else ParseConsCell(currentTermStr)
  }

  /** `parseListTerm`: the content of `[...]` as a right-nested chain of `"."`
      cells. An empty first element is `.()`. With a comma, the first element
      heads a cell whose tail is the rest of the content parsed as a list.
      Without one, a cons-cell element `H|T` is returned as it is and any other
      element `x` is wrapped as `.(x)`. Each failure of a part is the failure
      of the whole. */
  function ParseListTerm(termStr: string): (r: Result<PredicateTerm, ParseError>)
    ensures r.Ok? ==> r.value.name == "."
    ensures ListHead(termStr) == [] ==> r == Ok(Predicate(".", []))
    ensures ListHead(termStr) != [] ==>
              var element := ListElement(ListHead(termStr));
              && (element.Err? ==> r == Err(element.error))
              && (element.Ok? && |Split(termStr, ",")| > 1 ==>
                    var rest := ParseListTerm(ListRest(termStr));
                    && (rest.Err? ==> r == Err(rest.error))
                    && (rest.Ok? ==> r == Ok(Predicate(".", [element.value, rest.value]))))
              && (element.Ok? && |Split(termStr, ",")| == 1 ==>
                    r == Ok(if element.value.Predicate? && element.value.name == "." then element.value
                            else Predicate(".", [element.value])))
    decreases |termStr|
  {
    var parts := Split(termStr, ",");
    var currentTermStr := ListHead(termStr);
    if currentTermStr == [] then Ok(MakePredicate(".", []))
    else
      var currentTerm :- ListElement(currentTermStr);
      if |parts| > 1 then
        var rest :- ParseListTerm(ListRest(termStr));
        Ok(MakePredicate(".", [currentTerm, rest]))
      else if currentTerm.Predicate? && currentTerm.name == "." then
        Ok(currentTerm)
      else
        Ok(MakePredicate(".", [currentTerm]))
  }

  // ---------------------------------------------------------------------------
  // parseTerms

  /** The text after a list's closing `]`, trimmed and without one leading comma. */
  function AfterList(termStr: string, close: nat): (r: string)
    requires close < |termStr|
    ensures |r| < |termStr| - close
  {
    var theRest := Trim(termStr[close + 1..]);
    if StartsWith(theRest, ",") then Trim(theRest[1..]) else theRest
  }

  /** `parseTerms`: a text that starts with `[` is a list up to the first `]`
      followed by more terms; any other text is cut at every comma and each
      piece is one term. */
  function ParseTerms(termStr: string): (r: Result<seq<Term>, ParseError>)
    ensures termStr == [] ==> r == Ok([])
    ensures termStr != [] && !StartsWith(termStr, "[") ==> r == MapAll(Split(termStr, ","), ParseTrimmedTerm)
    ensures StartsWith(termStr, "[") && IndexOfFirst(termStr, {']'}) < 0 ==> r == Err(UnclosedList(termStr))
    ensures StartsWith(termStr, "[") && IndexOfFirst(termStr, {']'}) >= 0 ==>
              var close := IndexOfFirst(termStr, {']'});
              1 <= close
              && var list := ParseListTerm(termStr[1..close]);
                 var theRest := AfterList(termStr, close);
                 && (list.Err? ==> r == Err(list.error))
                 && (list.Ok? && theRest == [] ==> r == Ok([list.value]))
                 && (list.Ok? && theRest != [] ==>
                       var more := ParseTerms(theRest);
                       && (more.Err? ==> r == Err(more.error))
                       && (more.Ok? ==> r == Ok([list.value] + more.value)))
    decreases |termStr|
  {
    if termStr == [] then Ok([])
    else if StartsWith(termStr, "[") then
      var close := IndexOfFirst(termStr, {']'});
      if close < 0 then Err(UnclosedList(termStr))
      else
        assert termStr[0] == '[';
        var list :- ParseListTerm(termStr[1..close]);
        var theRest := AfterList(termStr, close);
        if theRest == [] then Ok([list])
        else
          var more :- ParseTerms(theRest);
          Ok([list] + more)
    else
      MapAll(Split(termStr, ","), ParseTrimmedTerm)
  }

  // ---------------------------------------------------------------------------
  // parsePredicate

  /** The argument text of a predicate: after the first `(`, without trailing
      `)`, `.` and `,`, trimmed; empty when there is no `(`. */
  function ArgumentText(predStr: string): string {
    if Contains(predStr, "(") then Trim(TrimEnd(SubstringAfter(predStr, "("), {')', '.', ','})) else ""
  }

  /** `parsePredicate`. With an operator anywhere in the text, only the text
      before the first `(` goes to the operator parser, and a result that is
      not a predicate is an error. Otherwise the name is the trimmed text before
      the first `(` and the arguments are `parseTerms` of the argument text. */
  function ParsePredicate(predStr: string): (r: Result<PredicateTerm, ParseError>)
    ensures !HasSpecialTerm(predStr) ==>
              (r.Ok? <==> ParseTerms(ArgumentText(predStr)).Ok?)
              && (r.Ok? ==> r.value.name == Trim(SubstringBefore(predStr, "("))
                            && r.value.terms == ParseTerms(ArgumentText(predStr)).value)
    ensures !HasSpecialTerm(predStr) && !Contains(predStr, "(") ==> r == Ok(Predicate(Trim(predStr), []))
    ensures HasSpecialTerm(predStr) ==>
              var special := ParseSpecialPredicate(Trim(SubstringBefore(predStr, "(")));
              && (special.Ok? && special.value.Predicate? ==> r == Ok(special.value))
              && (special.Ok? && !special.value.Predicate? ==> r == Err(NotAPredicate(predStr)))
              && (special.Err? ==> r == Err(special.error))
  {
    var name := Trim(SubstringBefore(predStr, "("));
    if HasSpecialTerm(predStr) then
      var special :- ParseSpecialPredicate(name);
      if special.Predicate? then Ok(MakePredicate(special.name, special.terms)) else Err(NotAPredicate(predStr))
    else
      var terms :- ParseTerms(ArgumentText(predStr));
      Ok(MakePredicate(name, terms))
  }

  /** A body piece trimmed and then parsed as one predicate. */
  function ParseTrimmedPredicate(s: string): Result<PredicateTerm, ParseError> {
    ParsePredicate(Trim(s))
  }

  // ---------------------------------------------------------------------------
  // splitPredicates

  /** The value of a counter that goes up at `open` and down at `close` after
      scanning the first `n` characters of `s` (the source's `depth` and
      `listDepth`). */
  function Depth(s: string, n: nat, open: char, close: char): int
    requires n <= |s|
  {
    if n == 0 then 0
    else Depth(s, n - 1, open, close) + Delta(s[n - 1], open, close)
  }

  function Delta(c: char, open: char, close: char): int {
    if c == open then 1 else if c == close then -1 else 0
  }

  /** Position `i` of `s` is a comma outside every `(...)` and `[...]`. */
  predicate IsTopLevelComma(s: string, i: int) {
    0 <= i < |s| && s[i] == ',' && Depth(s, i, '(', ')') == 0 && Depth(s, i, '[', ']') == 0
  }

  /** The top-level commas among the first `n` characters of `s`, in increasing order. */
  function TopLevelCommas(s: string, n: nat): (cuts: seq<nat>)
    requires n <= |s|
  {
    if n == 0 then []
    else TopLevelCommas(s, n - 1) + (if IsTopLevelComma(s, n - 1) then [n - 1] else [])
  }

  /** `TopLevelCommas(s, n)` lists exactly the top-level commas below `n`, in
      increasing order. */
  lemma {:induction false} TopLevelCommasExact(s: string, n: nat)
    requires n <= |s|
    ensures forall k :: 0 <= k < |TopLevelCommas(s, n)| ==>
              TopLevelCommas(s, n)[k] < n && IsTopLevelComma(s, TopLevelCommas(s, n)[k])
    ensures forall k, l :: 0 <= k < l < |TopLevelCommas(s, n)| ==> TopLevelCommas(s, n)[k] < TopLevelCommas(s, n)[l]
    ensures forall i :: 0 <= i < n && IsTopLevelComma(s, i) ==> i in TopLevelCommas(s, n)
  {
    if n > 0 {
      TopLevelCommasExact(s, n - 1);
    }
  }

  /** Where piece `k` starts: at 0, or just after the `k`-th cut. */
  function PieceStart(cuts: seq<nat>, k: nat): nat
    requires k <= |cuts|
  {
    if k == 0 then 0 else cuts[k - 1] + 1
  }

  /** Where piece `k` ends: at the `k+1`-st cut, or at the end of the text. */
  function PieceEnd(cuts: seq<nat>, k: nat, length: nat): nat
    requires k <= |cuts|
  {
    if k == |cuts| then length else cuts[k]
  }

  /** The cuts are positions of `s` in increasing order. */
  predicate CutsFit(s: string, cuts: seq<nat>) {
    && (forall k :: 0 <= k < |cuts| ==> cuts[k] < |s|)
    && (forall k, l :: 0 <= k < l < |cuts| ==> cuts[k] < cuts[l])
  }

  /** The slices of `s` between consecutive cuts, each passed through `clean`. */
  function Pieces(s: string, cuts: seq<nat>, clean: string -> string): (pieces: seq<string>)
    requires CutsFit(s, cuts)
    ensures |pieces| == |cuts| + 1
  {
    seq(|cuts| + 1, k requires 0 <= k <= |cuts| => clean(s[PieceStart(cuts, k)..PieceEnd(cuts, k, |s|)]))
  }

  /** What `splitPredicates` returns: the trimmed slices of `s` between
      consecutive top-level commas, one more than there are such commas. */
  function TopLevelPieces(s: string): (pieces: seq<string>)
    ensures |pieces| == |TopLevelCommas(s, |s|)| + 1
  {
    var cuts := TopLevelCommas(s, |s|);
    assert CutsFit(s, cuts) by {
      TopLevelCommasExact(s, |s|);
    }
    Pieces(s, cuts, Trim)
  }

  /** `pieces` are the trimmed slices of `s` that end at the cuts in `cuts`. */
  ghost predicate PiecesBefore(s: string, cuts: seq<nat>, pieces: seq<string>, clean: string -> string) {
    |pieces| == |cuts|
    && forall k {:trigger pieces[k]} :: 0 <= k < |cuts| ==>
         PieceStart(cuts, k) <= cuts[k] <= |s| && pieces[k] == clean(s[PieceStart(cuts, k)..cuts[k]])
  }

  /** Cutting at `i` appends the slice from the current start up to `i`. */
  lemma PiecesBeforeCut(s: string, cuts: seq<nat>, pieces: seq<string>, clean: string -> string, i: nat)
    requires PiecesBefore(s, cuts, pieces, clean)
    requires CutsFit(s, cuts) && PieceStart(cuts, |cuts|) <= i < |s|
    ensures CutsFit(s, cuts + [i])
    ensures PiecesBefore(s, cuts + [i], pieces + [clean(s[PieceStart(cuts, |cuts|)..i])], clean)
    ensures PieceStart(cuts + [i], |cuts| + 1) == i + 1
  {
    CutsFitAppend(s, cuts, i);
    var cuts' := cuts + [i];
    var pieces' := pieces + [clean(s[PieceStart(cuts, |cuts|)..i])];
    forall k | 0 <= k < |cuts'|
      ensures PieceStart(cuts', k) <= cuts'[k] <= |s| && pieces'[k] == clean(s[PieceStart(cuts', k)..cuts'[k]])
    {
      PieceAfterCut(s, cuts, pieces, clean, i, k);
    }
  }

  lemma CutsFitAppend(s: string, cuts: seq<nat>, i: nat)
    requires CutsFit(s, cuts) && PieceStart(cuts, |cuts|) <= i < |s|
    ensures CutsFit(s, cuts + [i])
  {
    var cuts' := cuts + [i];
    forall k, l | 0 <= k < l < |cuts'| ensures cuts'[k] < cuts'[l] {
      if l < |cuts| {
        assert cuts'[k] == cuts[k] && cuts'[l] == cuts[l];
      } else {
        assert cuts'[k] == cuts[k] <= cuts[|cuts| - 1] < i;
      }
    }
  }

  lemma PieceAfterCut(s: string, cuts: seq<nat>, pieces: seq<string>, clean: string -> string, i: nat, k: nat)
    requires PiecesBefore(s, cuts, pieces, clean)
    requires CutsFit(s, cuts) && PieceStart(cuts, |cuts|) <= i < |s| && k <= |cuts|
    ensures var cuts', pieces' := cuts + [i], pieces + [clean(s[PieceStart(cuts, |cuts|)..i])];
      PieceStart(cuts', k) <= cuts'[k] < |s| && pieces'[k] == clean(s[PieceStart(cuts', k)..cuts'[k]])
  {
    var cuts' := cuts + [i];
    if k < |cuts| {
      if k > 0 { assert cuts'[k - 1] == cuts[k - 1]; }
      assert PieceStart(cuts', k) == PieceStart(cuts, k);
    } else {
      assert PieceStart(cuts', k) == PieceStart(cuts, |cuts|);
    }
  }

  /** Once every cut is made, the pieces and the rest of the text are all the pieces. */
  lemma PiecesBeforeComplete(s: string, cuts: seq<nat>, pieces: seq<string>, clean: string -> string)
    requires CutsFit(s, cuts) && PiecesBefore(s, cuts, pieces, clean)
    ensures pieces + [clean(s[PieceStart(cuts, |cuts|)..])] == Pieces(s, cuts, clean)
  {
    var all := pieces + [clean(s[PieceStart(cuts, |cuts|)..])];
    var expected := Pieces(s, cuts, clean);
    forall k | 0 <= k < |all| ensures all[k] == expected[k] {
      PieceOf(s, cuts, pieces, clean, k);
    }
  }

  lemma PieceOf(s: string, cuts: seq<nat>, pieces: seq<string>, clean: string -> string, k: nat)
    requires CutsFit(s, cuts) && PiecesBefore(s, cuts, pieces, clean) && k <= |cuts|
    ensures (pieces + [clean(s[PieceStart(cuts, |cuts|)..])])[k] == Pieces(s, cuts, clean)[k]
  {
    if k < |pieces| {
      assert PieceEnd(cuts, k, |s|) == cuts[k];
    } else {
      assert s[PieceStart(cuts, k)..] == s[PieceStart(cuts, k)..PieceEnd(cuts, k, |s|)];
    }
  }

  /** One character of the scan: a top-level comma at `index` adds a cut and
      the piece before it; any other character leaves the cuts as they are. */
  lemma ScanStep(s: string, index: nat, cuts: seq<nat>, pieces: seq<string>)
    requires index < |s| && cuts == TopLevelCommas(s, index)
    requires CutsFit(s, cuts) && PiecesBefore(s, cuts, pieces, Trim) && PieceStart(cuts, |cuts|) <= index
    ensures var cut := s[index] == ',' && Depth(s, index + 1, '(', ')') == 0 && Depth(s, index + 1, '[', ']') == 0;
      && (cut ==> var cuts' := cuts + [index];
                  && cuts' == TopLevelCommas(s, index + 1)
                  && CutsFit(s, cuts')
                  && PiecesBefore(s, cuts', pieces + [Trim(s[PieceStart(cuts, |cuts|)..index])], Trim)
                  && PieceStart(cuts', |cuts'|) == index + 1)
      && (!cut ==> cuts == TopLevelCommas(s, index + 1))
  {
    if s[index] == ',' {
      assert Depth(s, index + 1, '(', ')') == Depth(s, index, '(', ')');
      assert Depth(s, index + 1, '[', ']') == Depth(s, index, '[', ']');
    }
    if IsTopLevelComma(s, index) {
      PiecesBeforeCut(s, cuts, pieces, Trim, index);
    }
  }

  /** `splitPredicates`: one scan over the characters with the two depth
      counters, cutting at each comma seen while both are zero. */
  method SplitPredicates(bodyStr: string) returns (predicates: seq<string>)
    ensures predicates == TopLevelPieces(bodyStr)
  {
    predicates := [];
    var start := 0;
    var depth := 0;
    var listDepth := 0;
    ghost var cuts: seq<nat> := [];
    for index := 0 to |bodyStr|
      invariant depth == Depth(bodyStr, index, '(', ')')
      invariant listDepth == Depth(bodyStr, index, '[', ']')
      invariant cuts == TopLevelCommas(bodyStr, index)
      invariant CutsFit(bodyStr, cuts) && PiecesBefore(bodyStr, cuts, predicates, Trim)
      invariant start == PieceStart(cuts, |cuts|) <= index
    {
      var ch := bodyStr[index];
      if ch == '(' { depth := depth + 1; }
      if ch == ')' { depth := depth - 1; }
      if ch == '[' { listDepth := listDepth + 1; }
      if ch == ']' { listDepth := listDepth - 1; }
      assert depth == Depth(bodyStr, index + 1, '(', ')') && listDepth == Depth(bodyStr, index + 1, '[', ']');
      ScanStep(bodyStr, index, cuts, predicates);
      if ch == ',' && depth == 0 && listDepth == 0 {
        predicates := predicates + [Trim(bodyStr[start..index])];
        cuts := cuts + [index];
        start := index + 1;
      }
    }
    PiecesBeforeComplete(bodyStr, cuts, predicates, Trim);
    predicates := predicates + [Trim(bodyStr[start..])];
  }

  // ---------------------------------------------------------------------------
  // parseClause

  /** `parseClause`: the head is the text before the first `:-`; the body, if
      any, is the text between the first and the second `:-`, cut into
      predicates at its top-level commas. */
  function ParseClause(clauseStr: string): (r: Result<Clause, ParseError>)
    ensures !Contains(clauseStr, ":-") ==>
              r == (match ParsePredicate(TrimEnd(Trim(clauseStr), {'.'}))
                    case Ok(head) => Ok(Clause(head, []))
                    case Err(e) => Err(e))
    ensures Contains(clauseStr, ":-") && r.Ok? ==>
              |r.value.body| == |TopLevelPieces(Trim(Split(clauseStr, ":-")[1]))|
    ensures Contains(clauseStr, ":-") ==>
              var head := ParsePredicate(TrimEnd(Trim(Split(clauseStr, ":-")[0]), {'.'}));
              var pieces := TopLevelPieces(Trim(Split(clauseStr, ":-")[1]));
              && (head.Err? ==> r == Err(head.error))
              && (r.Ok? <==> head.Ok? && forall k :: 0 <= k < |pieces| ==> ParseTrimmedPredicate(pieces[k]).Ok?)
              && (r.Ok? ==> r.value.head == head.value
                            && forall k :: 0 <= k < |pieces| ==> r.value.body[k] == ParseTrimmedPredicate(pieces[k]).value)
              && (head.Ok? && r.Err? ==>
                    exists k :: 0 <= k < |pieces| && ParseTrimmedPredicate(pieces[k]).Err?
                                && r.error == ParseTrimmedPredicate(pieces[k]).error
                                && forall j :: 0 <= j < k ==> ParseTrimmedPredicate(pieces[j]).Ok?)
  {
    var parts := Split(clauseStr, ":-");
    var head :- ParsePredicate(TrimEnd(Trim(parts[0]), {'.'}));
    if |parts| > 1 then
      var body :- MapAll(TopLevelPieces(Trim(parts[1])), ParseTrimmedPredicate);
      Ok(Clause(head, body))
    else
      Ok(Clause(head, []))
  }

  // ---------------------------------------------------------------------------
  // preprocessPrologCode

  /** The lines that do not start with `%`, each cut at its first `%`. */
  function CommentFreeLines(lines: seq<string>): (r: seq<string>)
    ensures forall k :: 0 <= k < |r| ==> !Contains(r[k], "%")
    ensures |r| <= |lines|
  {
    if lines == [] then []
    else if StartsWith(lines[0], "%") then CommentFreeLines(lines[1..])
    else [Split(lines[0], "%")[0]] + CommentFreeLines(lines[1..])
  }

  /** What the loop of `preprocessPrologCode` produces from `lines` when it
      starts with the pending text `currentLine`: each non-blank trimmed line
      is appended with a space; a line that ends in `.` closes a clause; the
      pending text left at the end is a last clause. */
  function MergeLines(lines: seq<string>, currentLine: string): seq<string> {
    if lines == [] then
      if currentLine == [] then [] else [currentLine]
    else
      var trimmedLine := Trim(lines[0]);
      if trimmedLine == [] then MergeLines(lines[1..], currentLine)
      else if EndsWith(trimmedLine, ".") then [currentLine + trimmedLine + " "] + MergeLines(lines[1..], [])
      else MergeLines(lines[1..], currentLine + trimmedLine + " ")
  }

  /** One step of `MergeLines` at position `i` of `lines`. */
  lemma MergeLinesStep(lines: seq<string>, i: nat, currentLine: string)
    requires i < |lines|
    ensures var trimmedLine := Trim(lines[i]);
      MergeLines(lines[i..], currentLine) ==
        if trimmedLine == [] then MergeLines(lines[i + 1..], currentLine)
        else if EndsWith(trimmedLine, ".") then [currentLine + trimmedLine + " "] + MergeLines(lines[i + 1..], [])
        else MergeLines(lines[i + 1..], currentLine + trimmedLine + " ")
  {
    assert lines[i..][0] == lines[i] && lines[i..][1..] == lines[i + 1..];
  }

  /** What `preprocessPrologCode` returns. */
  function Preprocess(prologCode: string): seq<string> {
    MergeLines(CommentFreeLines(Lines(prologCode)), [])
  }

  /** `preprocessPrologCode`: appends to `mergedLines` and resets
      `currentLine` inside a loop over the comment-free lines. */
  method PreprocessPrologCode(prologCode: string) returns (mergedLines: seq<string>)
    ensures mergedLines == Preprocess(prologCode)
  {
    var lines := CommentFreeLines(Lines(prologCode));
    mergedLines := [];
    var currentLine := "";
    for i := 0 to |lines|
      invariant mergedLines + MergeLines(lines[i..], currentLine) == MergeLines(lines, [])
    {
      MergeLinesStep(lines, i, currentLine);
      var trimmedLine := Trim(lines[i]);
      if trimmedLine != [] {
        currentLine := currentLine + trimmedLine + " ";
        if EndsWith(trimmedLine, ".") {
          assert (mergedLines + [currentLine]) + MergeLines(lines[i + 1..], "")
              == mergedLines + ([currentLine] + MergeLines(lines[i + 1..], ""));
          mergedLines := mergedLines + [currentLine];
          currentLine := "";
        }
      }
    }
    assert lines[|lines|..] == [];
    if currentLine != [] {
      mergedLines := mergedLines + [currentLine];
    }
  }

  // ---------------------------------------------------------------------------
  // parseProlog

  /** `parseProlog`: every preprocessed clause string is parsed in order and
      the clauses are collected with `add`; the first failing clause aborts. */
  method ParseProlog(prologCode: string) returns (r: Result<seq<Clause>, ParseError>)
    ensures r == MapAll(Preprocess(prologCode), ParseClause)
  {
    var clauses := [];
    var mergedLines := PreprocessPrologCode(prologCode);
    for i := 0 to |mergedLines|
      invariant MapAll(mergedLines[..i], ParseClause) == Ok(clauses)
    {
      MapAllPrefix(mergedLines, i, ParseClause);
      var clause := ParseClause(mergedLines[i]);
      if clause.Err? {
        return Err(clause.error);
      }
      clauses := clauses + [clause.value];
    }
    assert mergedLines[..|mergedLines|] == mergedLines;
    return Ok(clauses);
  }
}
