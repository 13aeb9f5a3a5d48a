/** Properties of the parser that relate several calls or hold for whole
    families of inputs. */
module ParserProperties {
  import opened Results
  import opened KotlinStrings
  import opened Model
  import opened Parser

  // ---------------------------------------------------------------------------
  // parseSpecialPredicate

  /** The operator table is searched in list order, so `>=` and `=<` are never
      chosen: any text containing them also contains `>` or `<`, which come first. */
  lemma CompoundComparisonsNeverChosen(s: string)
    ensures SpecialTermIndex(s) >= 0 ==> SPECIAL_TERMS[SpecialTermIndex(s)] != ">="
                                         && SPECIAL_TERMS[SpecialTermIndex(s)] != "=<"
  {
    assert SPECIAL_TERMS[1] == ">" && SPECIAL_TERMS[2] == "<";
    if Contains(s, ">=") {
      assert ">" + "=" == ">=";
      ContainsPrefix(s, ">", "=");
    }
    if Contains(s, "=<") {
      assert "=" + "<" == "=<";
      ContainsSuffix(s, "=", "<");
    }
  }

  /** One character of every operator of the table. */
  const OPERATOR_MARKS: set<char> := {'i', '>', '<', '\\', '=', '+', '-', '*', '/', 'd'}

  /** No character of `s` is in `marks`. */
  predicate Avoids(s: string, marks: set<char>) {
    s == [] || (s[0] !in marks && Avoids(s[1..], marks))
  }

  lemma {:induction false} AvoidsAt(s: string, marks: set<char>)
    requires Avoids(s, marks)
    ensures forall i :: 0 <= i < |s| ==> s[i] !in marks
    ensures forall c :: c in s ==> c !in marks
  {
    if s != [] {
      AvoidsAt(s[1..], marks);
      assert forall i :: 1 <= i < |s| ==> s[i] == s[1..][i - 1];
    }
  }

  /** No character of `s` is one of the operator characters. */
  predicate NoMarks(s: string) {
    Avoids(s, OPERATOR_MARKS)
  }

  /** Text without any of those characters holds no operator, so
      `parsePredicate` reads it as a name with arguments. */
  lemma NoOperator(s: string)
    requires NoMarks(s)
    ensures !HasSpecialTerm(s)
  {
    AvoidsAt(s, OPERATOR_MARKS);
    forall j | 0 <= j < |SPECIAL_TERMS| ensures !Contains(s, SPECIAL_TERMS[j]) {
      ContainsKeepsChars(s, SPECIAL_TERMS[j]);
      assert exists c :: c in SPECIAL_TERMS[j] && c in OPERATOR_MARKS;
    }
  }

  /** `parsePredicate` takes the operator branch exactly when some operator of
      the table occurs in the text. */
  lemma HasSpecialTermIff(s: string)
    ensures HasSpecialTerm(s) <==> exists k :: 0 <= k < |SPECIAL_TERMS| && Contains(s, SPECIAL_TERMS[k])
  {
    if HasSpecialTerm(s) {
      assert Contains(s, SPECIAL_TERMS[SpecialTermIndex(s)]);
    }
  }

  /** The names the operators get in the tree, in table order: each operator
      without its surrounding spaces, except ` div `, which is renamed `/`. */
  const TREE_NAMES: seq<string> := ["is", ">", "<", ">=", "=<", "\\=", "==", "+", "-", "*", "/", "\\", "/"]

  /** `OperatorName` gives each operator of the table its name in `TREE_NAMES`. */
  lemma OperatorNames()
    ensures forall k :: 0 <= k < |SPECIAL_TERMS| ==> OperatorName(SPECIAL_TERMS[k]) == TREE_NAMES[k]
  {
    forall k | 0 <= k < |SPECIAL_TERMS| ensures OperatorName(SPECIAL_TERMS[k]) == TREE_NAMES[k] {
      if k == 0 {
        IsName();
      } else if k < 12 {
        TrimOfTrimmed(SPECIAL_TERMS[k]);
      }
    }
  }

  lemma IsName()
    ensures OperatorName(" is ") == "is"
  {
    assert " is "[1..] == "is ";
    assert "is "[..2] == "is";
    TrimOfTrimmed("is");
  }

  /** Integer division and `/` build the same tree; no other two operators
      share a name. */
  lemma DivisionSharesName()
    ensures OperatorName(" div ") == OperatorName("/")
    ensures forall k, l :: 0 <= k < l < |SPECIAL_TERMS| && OperatorName(SPECIAL_TERMS[k]) == OperatorName(SPECIAL_TERMS[l]) ==>
              k == 10 && l == 12
  {
    OperatorNames();
    forall k, l | 0 <= k < l < |TREE_NAMES| && TREE_NAMES[k] == TREE_NAMES[l] ensures k == 10 && l == 12 {
      assert TREE_NAMES[k][0] == TREE_NAMES[l][0];
    }
  }

  /** Two texts avoid the marks exactly when their concatenation does. */
  lemma {:induction false} AvoidsAppend(a: string, b: string, marks: set<char>)
    ensures Avoids(a + b, marks) <==> Avoids(a, marks) && Avoids(b, marks)
    decreases |a|
  {
    if a != [] {
      assert (a + b)[0] == a[0] && (a + b)[1..] == a[1..] + b;
      AvoidsAppend(a[1..], b, marks);
    } else {
      assert a + b == b;
    }
  }

  /** `name(args)` holds no operator when neither the name nor the argument
      text has an operator character. */
  lemma PlainCall(name: string, args: string)
    requires NoMarks(name) && NoMarks(args)
    ensures !HasSpecialTerm(name + "(" + args + ")")
  {
    assert NoMarks("(") && NoMarks(")");
    AvoidsAppend(name, "(", OPERATOR_MARKS);
    AvoidsAppend(name + "(", args, OPERATOR_MARKS);
    AvoidsAppend(name + "(" + args, ")", OPERATOR_MARKS);
    NoOperator(name + "(" + args + ")");
  }

  // ---------------------------------------------------------------------------
  // parseTerms and parsePredicate on plain arguments

  /** Cutting `pad + "e0, e1, ..."` at its commas gives pieces that trim back
      to the elements. */
  lemma {:induction false} SplitJoinTrim(es: seq<string>, pad: string)
    requires |es| >= 1 && forall k :: 0 <= k < |es| ==> PlainElement(es[k])
    requires pad == [] || pad == " "
    ensures |Split(pad + Join(es, ", "), ",")| == |es|
    ensures forall k :: 0 <= k < |es| ==> Trim(Split(pad + Join(es, ", "), ",")[k]) == es[k]
  {
    SplitJoinStep(es, pad);
    if |es| > 1 {
      SplitJoinTrim(es[1..], " ");
      TrimmedPieces(Split(pad + Join(es, ", "), ","), Split(" " + Join(es[1..], ", "), ","), es, pad + es[0]);
    }
  }

  /** A first piece that trims to the first element, followed by pieces that
      trim to the other elements. */
  lemma TrimmedPieces(parts: seq<string>, tail: seq<string>, es: seq<string>, first: string)
    requires |es| >= 1 && parts == [first] + tail && Trim(first) == es[0]
    requires |tail| == |es[1..]| && forall k :: 0 <= k < |es[1..]| ==> Trim(tail[k]) == es[1..][k]
    ensures |parts| == |es| && forall k :: 0 <= k < |es| ==> Trim(parts[k]) == es[k]
  {
    forall k | 0 <= k < |es| ensures Trim(parts[k]) == es[k] {
      if k > 0 {
        assert parts[k] == tail[k - 1] && es[k] == es[1..][k - 1];
      }
    }
  }

  /** The first piece of `pad + "e0, e1, ..."` and the rest of the cut. */
  lemma SplitJoinStep(es: seq<string>, pad: string)
    requires |es| >= 1 && PlainElement(es[0])
    requires pad == [] || pad == " "
    ensures Trim(pad + es[0]) == es[0]
    ensures |es| == 1 ==> Split(pad + Join(es, ", "), ",") == [pad + es[0]]
    ensures |es| > 1 ==> Split(pad + Join(es, ", "), ",") == [pad + es[0]] + Split(" " + Join(es[1..], ", "), ",")
  {
    var e := es[0];
    TrimPadded(e);
    TrimOfTrimmed(e);
    assert ',' !in pad + e;
    if |es| == 1 {
      ContainsChar(pad + e, ',');
    } else {
      var rest := Join(es[1..], ", ");
      assert pad + Join(es, ", ") == (pad + e) + [','] + (" " + rest);
      SplitAfterChar(pad + e, ',', " " + rest);
    }
  }

  /** `"e0, e1, ..."` starts with the first character of `e0`. */
  lemma JoinStart(es: seq<string>)
    requires |es| >= 1 && es[0] != []
    ensures Join(es, ", ") != [] && Join(es, ", ")[0] == es[0][0]
  {
    if |es| > 1 {
      assert Join(es, ", ") == es[0] + (", " + Join(es[1..], ", "));
    }
  }

  /** Plain arguments `e0, e1, ...` are parsed one `parseTerm` per element. */
  lemma PlainTerms(es: seq<string>)
    requires |es| >= 1 && forall k :: 0 <= k < |es| ==> PlainElement(es[k])
    ensures ParseTerms(Join(es, ", ")) == MapAll(es, ParseTerm)
  {
    PlainText(es);
    PlainPieces(es);
    TrimmedPointwise(Split(Join(es, ", "), ","), es);
  }

  /** Plain arguments are cut at every comma. */
  lemma PlainText(es: seq<string>)
    requires |es| >= 1 && PlainElement(es[0])
    ensures ParseTerms(Join(es, ", ")) == MapAll(Split(Join(es, ", "), ","), ParseTrimmedTerm)
  {
    JoinStart(es);
    assert !StartsWith(Join(es, ", "), "[");
  }

  /** The comma-cut pieces of plain arguments trim to the elements. */
  lemma PlainPieces(es: seq<string>)
    requires |es| >= 1 && forall k :: 0 <= k < |es| ==> PlainElement(es[k])
    ensures |Split(Join(es, ", "), ",")| == |es|
    ensures forall k :: 0 <= k < |es| ==> Trim(Split(Join(es, ", "), ",")[k]) == es[k]
  {
    SplitJoinTrim(es, []);
    assert [] + Join(es, ", ") == Join(es, ", ");
  }

  /** Pieces that trim to the elements parse as the elements do. */
  lemma TrimmedPointwise(parts: seq<string>, es: seq<string>)
    requires |parts| == |es| && forall k :: 0 <= k < |es| ==> Trim(parts[k]) == es[k]
    ensures MapAll(parts, ParseTrimmedTerm) == MapAll(es, ParseTerm)
  {
    assert forall k :: 0 <= k < |es| ==> ParseTrimmedTerm(parts[k]) == ParseTerm(es[k]);
    MapAllPointwise(parts, es, ParseTrimmedTerm, ParseTerm);
  }

  /** `name(args)` without an operator is the predicate `name` over
      `parseTerms(args)`, or fails with its error. */
  lemma PlainPredicate(name: string, args: string)
    requires name != [] && name[0] !in WHITESPACE && name[|name| - 1] !in WHITESPACE && '(' !in name
    requires args == [] || (args[0] !in WHITESPACE && args[|args| - 1] !in WHITESPACE + {')', '.', ','})
    requires !HasSpecialTerm(name + "(" + args + ")")
    ensures ParseTerms(args).Ok? ==>
              ParsePredicate(name + "(" + args + ")") == Ok(MakePredicate(name, ParseTerms(args).value))
    ensures ParseTerms(args).Err? ==> ParsePredicate(name + "(" + args + ")") == Err(ParseTerms(args).error)
  {
    PredicateText(name, args);
  }

  /** The name and the argument text of `name(args)`. */
  lemma PredicateText(name: string, args: string)
    requires name != [] && name[0] !in WHITESPACE && name[|name| - 1] !in WHITESPACE && '(' !in name
    requires args == [] || (args[0] !in WHITESPACE && args[|args| - 1] !in WHITESPACE + {')', '.', ','})
    ensures Trim(SubstringBefore(name + "(" + args + ")", "(")) == name
    ensures ArgumentText(name + "(" + args + ")") == args
  {
    var s := name + "(" + args + ")";
    assert s == name + ['('] + (args + ")");
    FirstChar(name, '(', args + ")");
    ContainsChar(s, '(');
    assert s[|name|] == '(';
    TrimOfTrimmed(name);
    assert TrimEnd(args + ")", {')', '.', ','}) == args by {
      assert (args + ")")[..|args + ")"| - 1] == args;
    }
    if args != [] {
      TrimOfTrimmed(args);
    }
  }

  // ---------------------------------------------------------------------------
  // preprocessPrologCode

  /** The strings one after the other. */
  function Concat(ss: seq<string>): string {
    if ss == [] then [] else ss[0] + Concat(ss[1..])
  }

  /** Each non-blank line, trimmed and followed by one space, in order. */
  function SpacedLines(lines: seq<string>): string {
    if lines == [] then []
    else (if Trim(lines[0]) == [] then [] else Trim(lines[0]) + " ") + SpacedLines(lines[1..])
  }

  /** The merged clause strings are the pending text followed by the spaced
      lines: merging only regroups the text. */
  lemma {:induction false} MergeLinesConcat(lines: seq<string>, currentLine: string)
    ensures Concat(MergeLines(lines, currentLine)) == currentLine + SpacedLines(lines)
  {
    if lines == [] {
      if currentLine != [] {
        ConcatCons(currentLine, []);
      }
    } else {
      var trimmedLine := Trim(lines[0]);
      var tail := SpacedLines(lines[1..]);
      if trimmedLine == [] {
        assert MergeLines(lines, currentLine) == MergeLines(lines[1..], currentLine);
        assert SpacedLines(lines) == tail;
        MergeLinesConcat(lines[1..], currentLine);
      } else {
        var next := currentLine + trimmedLine + " ";
        assert SpacedLines(lines) == trimmedLine + " " + tail;
        if EndsWith(trimmedLine, ".") {
          var rest := MergeLines(lines[1..], []);
          assert MergeLines(lines, currentLine) == [next] + rest;
          MergeLinesConcat(lines[1..], []);
          ConcatCons(next, rest);
        } else {
          assert MergeLines(lines, currentLine) == MergeLines(lines[1..], next);
          MergeLinesConcat(lines[1..], next);
        }
        Regroup(currentLine, trimmedLine, " ", tail);
      }
    }
  }

  /** `Concat` of a list that starts with `x`. */
  lemma ConcatCons(x: string, rest: seq<string>)
    ensures Concat([x] + rest) == x + Concat(rest)
  {
    assert ([x] + rest)[1..] == rest;
  }

  /** Concatenation regrouped. */
  lemma Regroup(a: string, b: string, c: string, d: string)
    ensures a + b + c + d == a + (b + c + d)
  {
  }

  /** A string that can be the pending text of a clause: not blank, free of
      `%` and line breaks, and ending in a space. */
  predicate ClauseText(s: string) {
    !IsBlank(s) && EndsWith(s, " ") && '%' !in s && '\n' !in s && '\r' !in s
  }

  /** A line that is free of `%` and line breaks. */
  predicate CleanLine(s: string) {
    '%' !in s && '\n' !in s && '\r' !in s
  }

  /** Appending a non-blank trimmed line and a space keeps a clause text. */
  lemma AppendLine(currentLine: string, line: string)
    requires currentLine == [] || ClauseText(currentLine)
    requires CleanLine(line) && Trim(line) != []
    ensures ClauseText(currentLine + Trim(line) + " ")
    ensures EndsWith(Trim(line), ".") ==> EndsWith(currentLine + Trim(line) + " ", ". ")
  {
    TrimEnds(line);
    TrimKeepsChars(line);
    AppendText(currentLine, Trim(line));
  }

  /** Appending a clean text that starts with a non-space and then a space
      keeps a clause text. */
  lemma AppendText(currentLine: string, t: string)
    requires currentLine == [] || ClauseText(currentLine)
    requires CleanLine(t) && t != [] && t[0] !in WHITESPACE
    ensures ClauseText(currentLine + t + " ")
    ensures EndsWith(t, ".") ==> EndsWith(currentLine + t + " ", ". ")
  {
    var s := currentLine + t + " ";
    assert CleanLine(s) by {
      CleanAppend(currentLine, t + " ");
      assert s == currentLine + (t + " ");
    }
    assert !IsBlank(s) by {
      assert s[|currentLine|] == t[0];
    }
    assert s[|s| - 1..] == " ";
    if EndsWith(t, ".") {
      assert s[|s| - 2..] == [t[|t| - 1], ' '];
    }
  }

  /** Two clean texts one after the other make a clean text. */
  lemma CleanAppend(a: string, b: string)
    requires (a == [] || ClauseText(a)) && CleanLine(b)
    ensures CleanLine(a + b)
  {
    forall c | c in a + b ensures c in a || c in b {
      var i :| 0 <= i < |a + b| && (a + b)[i] == c;
      if i < |a| { assert a[i] == c; } else { assert b[i - |a|] == c; }
    }
  }

  /** Every string is a clause text, and every one but the last ends in `". "`. */
  predicate MergedTexts(ms: seq<string>) {
    && (forall k :: 0 <= k < |ms| ==> ClauseText(ms[k]))
    && (forall k :: 0 <= k < |ms| - 1 ==> EndsWith(ms[k], ". "))
  }

  /** A closed clause text in front of clause texts. */
  lemma MergedTextsCons(next: string, rest: seq<string>)
    requires ClauseText(next) && EndsWith(next, ". ") && MergedTexts(rest)
    ensures MergedTexts([next] + rest)
  {
    var m := [next] + rest;
    assert forall k :: 1 <= k < |m| ==> m[k] == rest[k - 1];
  }

  /** Every merged string is a clause text, and every one but the last ends
      in `". "`, given lines free of `%` and line breaks. */
  lemma {:induction false} MergeLinesShape(lines: seq<string>, currentLine: string)
    requires forall k :: 0 <= k < |lines| ==> CleanLine(lines[k])
    requires currentLine == [] || ClauseText(currentLine)
    ensures MergedTexts(MergeLines(lines, currentLine))
  {
    if lines != [] {
      var trimmedLine := Trim(lines[0]);
      assert forall k :: 0 <= k < |lines| - 1 ==> lines[1..][k] == lines[k + 1];
      if trimmedLine == [] {
        assert MergeLines(lines, currentLine) == MergeLines(lines[1..], currentLine);
        MergeLinesShape(lines[1..], currentLine);
      } else {
        var next := currentLine + trimmedLine + " ";
        AppendLine(currentLine, lines[0]);
        if EndsWith(trimmedLine, ".") {
          MergeLinesShape(lines[1..], []);
          assert MergeLines(lines, currentLine) == [next] + MergeLines(lines[1..], []);
          MergedTextsCons(next, MergeLines(lines[1..], []));
        } else {
          assert MergeLines(lines, currentLine) == MergeLines(lines[1..], next);
          MergeLinesShape(lines[1..], next);
        }
      }
    }
  }

  /** What `preprocessPrologCode` promises: no clause string is blank or holds
      a `%` or a line break, each but the last ends in `". "`, and together
      they are the comment-free, trimmed, non-blank lines, each followed by a
      space, in source order. */
  lemma PreprocessShape(prologCode: string)
    ensures forall k :: 0 <= k < |Preprocess(prologCode)| ==>
              !IsBlank(Preprocess(prologCode)[k]) && CleanLine(Preprocess(prologCode)[k])
    ensures forall k :: 0 <= k < |Preprocess(prologCode)| - 1 ==> EndsWith(Preprocess(prologCode)[k], ". ")
    ensures Concat(Preprocess(prologCode)) == SpacedLines(CommentFreeLines(Lines(prologCode)))
  {
    var lines := CommentFreeLines(Lines(prologCode));
    CommentFreeLinesClean(Lines(prologCode));
    MergeLinesShape(lines, []);
    MergeLinesConcat(lines, []);
  }

  /** The comment-free lines hold no `%` and, being lines, no line break. */
  lemma {:induction false} CommentFreeLinesClean(lines: seq<string>)
    requires forall k :: 0 <= k < |lines| ==> '\n' !in lines[k] && '\r' !in lines[k]
    ensures forall k :: 0 <= k < |CommentFreeLines(lines)| ==> CleanLine(CommentFreeLines(lines)[k])
  {
    if lines != [] {
      assert forall k :: 0 <= k < |lines| - 1 ==> lines[1..][k] == lines[k + 1];
      CommentFreeLinesClean(lines[1..]);
      var r := CommentFreeLines(lines);
      var rest := CommentFreeLines(lines[1..]);
      if !StartsWith(lines[0], "%") {
        var piece := Split(lines[0], "%")[0];
        assert r == [piece] + rest;
        assert piece == lines[0][..|piece|];
        ContainsChar(piece, '%');
        assert CleanLine(piece);
        assert forall k :: 1 <= k < |r| ==> r[k] == rest[k - 1];
      }
    }
  }

  /** `CommentFreeLines` works line by line: on two runs of lines it gives the
      two results one after the other, a line that starts with `%` is dropped
      and any other line is cut at its first `%`. So it keeps, in order, the
      text before the first `%` of every line that is not a comment line. */
  lemma CommentFreeLinesByLine(a: seq<string>, b: seq<string>)
    ensures CommentFreeLines(a + b) == CommentFreeLines(a) + CommentFreeLines(b)
    ensures forall l :: CommentFreeLines([l]) == if StartsWith(l, "%") then [] else [Split(l, "%")[0]]
  {
    CommentFreeLinesAppend(a, b);
    forall l ensures CommentFreeLines([l]) == if StartsWith(l, "%") then [] else [Split(l, "%")[0]] {
      CommentFreeLine(l);
    }
  }

  lemma {:induction false} CommentFreeLinesAppend(a: seq<string>, b: seq<string>)
    ensures CommentFreeLines(a + b) == CommentFreeLines(a) + CommentFreeLines(b)
    decreases |a|
  {
    if a != [] {
      assert (a + b)[0] == a[0] && (a + b)[1..] == a[1..] + b;
      CommentFreeLinesAppend(a[1..], b);
    } else {
      assert a + b == b;
    }
  }

  lemma CommentFreeLine(l: string)
    ensures CommentFreeLines([l]) == if StartsWith(l, "%") then [] else [Split(l, "%")[0]]
  {
    assert [l][1..] == [];
  }

  // ---------------------------------------------------------------------------
  // parseClause

  /** No `:-` starts inside `a` when `a` itself has none. */
  lemma NeckNotBefore(a: string, rest: string)
    requires !Contains(a, ":-")
    ensures forall j :: 0 <= j < |a| ==> !OccursAt(a + ":-" + rest, ":-", j)
  {
    var s := a + ":-" + rest;
    forall j | 0 <= j < |a| ensures !OccursAt(s, ":-", j) {
      if j + 2 <= |a| {
        assert s[j..j + 2] == a[j..j + 2];
        assert !OccursAt(a, ":-", j);
      } else {
        assert s[j + 1] == ':';
      }
    }
  }

  /** The text after a second `:-` plays no part in the clause. */
  lemma ParseClauseIgnoresSecondNeck(a: string, b: string, c: string)
    requires !Contains(a, ":-") && !Contains(b, ":-")
    ensures ParseClause(a + ":-" + b + ":-" + c) == ParseClause(a + ":-" + b)
  {
    TwoNecks(a, b, c);
    OneNeck(a, b);
  }

  /** Cutting a text with two `:-` between `:-`-free texts `a` and `b`. */
  lemma TwoNecks(a: string, b: string, c: string)
    requires !Contains(a, ":-") && !Contains(b, ":-")
    ensures Split(a + ":-" + b + ":-" + c, ":-") == [a, b] + Split(c, ":-")
  {
    assert a + ":-" + b + ":-" + c == a + ":-" + (b + ":-" + c);
    NeckSplit(a, b + ":-" + c);
    NeckSplit(b, c);
  }

  /** Cutting a text with one `:-` between `:-`-free texts `a` and `b`. */
  lemma OneNeck(a: string, b: string)
    requires !Contains(a, ":-") && !Contains(b, ":-")
    ensures Split(a + ":-" + b, ":-") == [a, b]
  {
    NeckSplit(a, b);
    assert Split(b, ":-") == [b];
  }

  /** A text free of `:-` is the first piece of cutting it, `:-` and more at `:-`. */
  lemma NeckSplit(a: string, rest: string)
    requires !Contains(a, ":-")
    ensures Split(a + ":-" + rest, ":-") == [a] + Split(rest, ":-")
  {
    NeckNotBefore(a, rest);
    SplitAfterFirst(a, ":-", rest);
  }

  // ---------------------------------------------------------------------------
  // splitPredicates

  /** Without a comma outside brackets the body is one predicate. */
  lemma NoTopLevelCommaOnePiece(s: string)
    requires forall i :: 0 <= i < |s| ==> !IsTopLevelComma(s, i)
    ensures TopLevelPieces(s) == [Trim(s)]
  {
    TopLevelCommasExact(s, |s|);
    var cuts := TopLevelCommas(s, |s|);
    assert |cuts| == 0 || IsTopLevelComma(s, cuts[0]);
    var pieces := Pieces(s, cuts, Trim);
    assert |pieces| == 1;
    assert pieces[0] == Trim(s[PieceStart(cuts, 0)..PieceEnd(cuts, 0, |s|)]);
    assert s[0..|s|] == s;
  }

  // ---------------------------------------------------------------------------
  // parseListTerm

  /** A list element with nothing for `parseListTerm` to cut or clean: not
      empty, no surrounding blanks, no `,`, `|` or brackets. */
  predicate PlainElement(e: string) {
    && e != [] && e[0] !in WHITESPACE && e[|e| - 1] !in WHITESPACE
    && ',' !in e && '|' !in e && '[' !in e && ']' !in e
  }

  /** The cell chain `.(h0, .(h1, ... last))` that a list with the elements
      `heads` in front of a last cell `last` parses to. */
  function Chain(heads: seq<Term>, last: PredicateTerm): PredicateTerm {
    if heads == [] then last else MakePredicate(".", [heads[0], Chain(heads[1..], last)])
  }

  /** The list content `e0, e1, ..., last`. */
  function ElementsText(es: seq<string>, last: string): string {
    if es == [] then last else es[0] + ", " + ElementsText(es[1..], last)
  }

  /** A plain first element becomes the head of a two-argument cell whose tail
      is the rest of the content parsed as a list. */
  lemma ListPlainStep(e: string, rest: string)
    requires PlainElement(e)
    ensures ParseListTerm(e + ", " + rest) ==
      match ParseTerm(e)
      case Err(x) => Err(x)
      case Ok(t) =>
        match ParseListTerm(Trim(rest))
        case Err(x) => Err(x)
        case Ok(l) => Ok(MakePredicate(".", [t, l]))
  {
    var termStr := e + ", " + rest;
    assert termStr == e + [','] + (" " + rest);
    SplitAfterChar(e, ',', " " + rest);
    TrimOfTrimmed(e);
    RemoveAbsentChar(e, ']');
    RemoveAbsentChar(e, '[');
    assert ListHead(termStr) == e;
    assert termStr[|e| + 1..] == " " + rest;
    assert Trim(" " + rest) == Trim(rest) by {
      assert (" " + rest)[1..] == rest;
    }
  }

  /** The content text starts and ends with a non-blank character. */
  lemma {:induction false} ElementsTextTrimmed(es: seq<string>, last: string)
    requires forall k :: 0 <= k < |es| ==> PlainElement(es[k])
    requires last != [] && Trim(last) == last
    ensures Trim(ElementsText(es, last)) == ElementsText(es, last)
    ensures var t := ElementsText(es, last); t != [] && t[|t| - 1] == last[|last| - 1]
  {
    TrimEnds(last);
    if es != [] {
      ElementsTextTrimmed(es[1..], last);
      var t := ElementsText(es, last);
      assert t[0] == es[0][0];
      TrimOfTrimmed(t);
    }
  }

  /** `n` plain elements in front of `last` give the right-nested chain of
      their terms, ending in the list `last` parses to; the first element that
      fails to parse, or else `last`, decides the error. */
  lemma {:induction false} ListElements(es: seq<string>, last: string)
    requires forall k :: 0 <= k < |es| ==> PlainElement(es[k])
    requires last != [] && Trim(last) == last
    ensures var r := ParseListTerm(ElementsText(es, last));
      && (MapAll(es, ParseTerm).Err? ==> r == Err(MapAll(es, ParseTerm).error))
      && (MapAll(es, ParseTerm).Ok? && ParseListTerm(last).Err? ==> r == Err(ParseListTerm(last).error))
      && (MapAll(es, ParseTerm).Ok? && ParseListTerm(last).Ok? ==>
            r == Ok(Chain(MapAll(es, ParseTerm).value, ParseListTerm(last).value)))
  {
    if es != [] {
      var rest := ElementsText(es[1..], last);
      ListPlainStep(es[0], rest);
      ElementsTextTrimmed(es[1..], last);
      ListElements(es[1..], last);
    }
  }

  /** A last plain element `x` is wrapped in the one-argument cell `.(x)`. */
  lemma ListLastPlain(e: string)
    requires PlainElement(e)
    ensures ParseTerm(e).Err? ==> ParseListTerm(e) == Err(ParseTerm(e).error)
    ensures ParseTerm(e).Ok? ==> ParseListTerm(e) == Ok(MakePredicate(".", [ParseTerm(e).value]))
  {
    ContainsChar(e, ',');
    TrimOfTrimmed(e);
    RemoveAbsentChar(e, ']');
    RemoveAbsentChar(e, '[');
    assert ListHead(e) == e;
  }

  /** A last element `H | T` is the two-argument cell `.(H, T)` itself, not
      wrapped in a further cell. */
  lemma ListLastCons(h: string, t: string)
    requires PlainElement(h) && PlainElement(t)
    requires ParseTerm(h).Ok? && ParseTerm(t).Ok?
    ensures ParseListTerm(h + " | " + t) == Ok(MakePredicate(".", [ParseTerm(h).value, ParseTerm(t).value]))
  {
    var e := h + " | " + t;
    ConsTextShape(h, t);
    ConsCellOf(h, t);
    LoneCell(e, MakePredicate(".", [ParseTerm(h).value, ParseTerm(t).value]));
  }

  /** The cell text `h | t` is the cell `.(h, t)`. */
  lemma ConsCellOf(h: string, t: string)
    requires Split(h + " | " + t, "|") == [h + " ", " " + t] && Trim(h + " ") == h && Trim(" " + t) == t
    requires ParseTerm(h).Ok? && ParseTerm(t).Ok?
    ensures ParseConsCell(h + " | " + t) == Ok(MakePredicate(".", [ParseTerm(h).value, ParseTerm(t).value]))
  {
    MapAllPair(h + " ", " " + t, ParseTrimmedTerm);
  }

  /** A list content that is one cell `H | T` is that cell. */
  lemma LoneCell(e: string, cell: PredicateTerm)
    requires Split(e, ",") == [e] && ListHead(e) == e && e != [] && '|' in e
    requires ParseConsCell(e) == Ok(cell)
    ensures ParseListTerm(e) == Ok(cell)
  {
  }

  /** How `parseListTerm` cuts and cleans the text `h | t`. */
  lemma ConsTextShape(h: string, t: string)
    requires PlainElement(h) && PlainElement(t)
    ensures var e := h + " | " + t;
      && Split(e, "|") == [h + " ", " " + t] && Split(e, ",") == [e] && ListHead(e) == e && '|' in e
      && Trim(h + " ") == h && Trim(" " + t) == t
  {
    ConsSplit(h, t);
    ConsHead(h, t);
    TrimPadded(h);
    TrimPadded(t);
  }

  lemma ConsSplit(h: string, t: string)
    requires PlainElement(h) && PlainElement(t)
    ensures Split(h + " | " + t, "|") == [h + " ", " " + t]
  {
    assert h + " | " + t == (h + " ") + ['|'] + (" " + t);
    SplitAfterChar(h + " ", '|', " " + t);
    ContainsChar(" " + t, '|');
  }

  lemma ConsHead(h: string, t: string)
    requires PlainElement(h) && PlainElement(t)
    ensures var e := h + " | " + t; Split(e, ",") == [e] && ListHead(e) == e && '|' in e
  {
    var e := h + " | " + t;
    assert ',' !in e && '[' !in e && ']' !in e;
    ContainsChar(e, ',');
    assert e[0] == h[0] && e[|e| - 1] == t[|t| - 1];
    TrimOfTrimmed(e);
    RemoveAbsentChar(e, ']');
    RemoveAbsentChar(e, '[');
    assert e[|h| + 1] == '|';
  }

  /** A space on either side of a trimmed text is trimmed away. */
  lemma TrimPadded(x: string)
    requires x != [] && x[0] !in WHITESPACE && x[|x| - 1] !in WHITESPACE
    ensures Trim(x + " ") == x && Trim(" " + x) == x && Trim(" " + x + " ") == x
  {
    assert (x + " ")[..|x + " "| - 1] == x;
    assert (" " + x)[1..] == x;
    assert (" " + x + " ")[1..] == x + " ";
    TrimOfTrimmed(x);
  }

  /** The content is re-sliced one past the length of the cleaned first
      element, not of the raw text before the comma. With one blank in front
      of the first element the slice starts at the comma, so everything after
      the first element is lost and the chain ends in the empty cell `.()`. */
  lemma LeadingBlankDropsRest(e: string, rest: string)
    requires PlainElement(e)
    ensures ParseTerm(e).Err? ==> ParseListTerm(" " + e + "," + rest) == Err(ParseTerm(e).error)
    ensures ParseTerm(e).Ok? ==>
              ParseListTerm(" " + e + "," + rest) == Ok(Predicate(".", [ParseTerm(e).value, Predicate(".", [])]))
  {
    LeadingBlankHead(e, rest);
    LeadingCommaIsEmpty("," + rest);
  }

  lemma LeadingBlankHead(e: string, rest: string)
    requires PlainElement(e)
    ensures var termStr := " " + e + "," + rest;
      && |Split(termStr, ",")| > 1 && ListHead(termStr) == e && ListRest(termStr) == Trim("," + rest)
  {
    var termStr := " " + e + "," + rest;
    assert termStr == (" " + e) + [','] + rest;
    assert ',' !in " " + e;
    SplitAfterChar(" " + e, ',', rest);
    TrimPadded(e);
    TrimOfTrimmed(e);
    RemoveAbsentChar(e, ']');
    RemoveAbsentChar(e, '[');
    assert termStr[|e| + 1..] == "," + rest;
  }

  /** A content that starts with a comma is the empty cell. */
  lemma LeadingCommaIsEmpty(x: string)
    requires x != [] && x[0] == ','
    ensures ParseListTerm(Trim(x)) == Ok(Predicate(".", []))
  {
    EmptyHead(x);
  }

  lemma EmptyHead(x: string)
    requires x != [] && x[0] == ','
    ensures ListHead(Trim(x)) == []
  {
    TrimKeepsFirst(x);
    var t := Trim(x);
    assert OccursAt(t, ",", 0);
    FirstOccurrence(t, ",", 0);
  }

  /** Text that starts with a non-blank character keeps it under `Trim`. */
  lemma {:induction false} TrimKeepsFirst(x: string)
    requires x != [] && x[0] !in WHITESPACE
    ensures Trim(x) != [] && Trim(x)[0] == x[0]
    decreases |x|
  {
    if x[|x| - 1] in WHITESPACE {
      TrimKeepsFirst(x[..|x| - 1]);
    }
  }

  // ---------------------------------------------------------------------------
  // parseTerm

  /** A trimmed text without a trailing dot is its own term text: a Variable
      when it starts with an upper-case letter and an Atom otherwise (a
      bracketed text starts with `[`, which is not upper-case). */
  lemma ParseTrimmedText(x: string)
    requires x != [] && x[0] !in WHITESPACE && x[|x| - 1] !in WHITESPACE && x[|x| - 1] != '.'
    ensures ParseTerm(x) == Ok(if IsUpperCase(x[0]) then Variable(x) else Atom(x))
  {
    assert TrimEnd(x, {'.'}) == x;
    TrimOfTrimmed(x);
  }

  /** `_` is not upper-case, so `parseTerm("_")` is an Atom. */
  lemma UnderscoreIsAtom()
    ensures ParseTerm("_") == Ok(Atom("_"))
  {
    ParseTrimmedText("_");
  }

  /** The text `parseTerm` classifies is a slice of its input: a blank prefix
      and a tail of blanks and dots are dropped, and what stays has no
      whitespace at either end. */
  lemma TermTextShape(termStr: string)
    ensures exists i, j :: 0 <= i <= j <= |termStr| && TermText(termStr) == termStr[i..j] && IsBlank(termStr[..i])
                           && forall k :: j <= k < |termStr| ==> termStr[k] in WHITESPACE + {'.'}
    ensures var t := TermText(termStr); t == [] || (t[0] !in WHITESPACE && t[|t| - 1] !in WHITESPACE)
  {
    TrimEndThenTrim(termStr, {'.'});
    TrimIsSlice(TrimEnd(termStr, {'.'}));
  }

  // ---------------------------------------------------------------------------
  // parsePredicate

  /** The argument text of a predicate is a slice of the text after its first
      `(`: a blank prefix and a tail of blanks, `)`, `.` and `,` are dropped.
      Without a `(` it is empty. */
  lemma ArgumentTextShape(predStr: string)
    ensures !Contains(predStr, "(") ==> ArgumentText(predStr) == []
    ensures Contains(predStr, "(") ==>
              var after := SubstringAfter(predStr, "(");
              && predStr == SubstringBefore(predStr, "(") + "(" + after
              && exists i, j :: 0 <= i <= j <= |after| && ArgumentText(predStr) == after[i..j] && IsBlank(after[..i])
                                && forall k :: j <= k < |after| ==> after[k] in WHITESPACE + {')', '.', ','}
  {
    if Contains(predStr, "(") {
      TrimEndThenTrim(SubstringAfter(predStr, "("), {')', '.', ','});
    }
  }
}
