/** The AST of the parser (`Term`, `Atom`, `Variable`, `Predicate`, `Clause`),
    the hand-written `equals` of those classes, and the pre-order encoding of a
    term into integers through a caller-supplied symbol table. */
module Model {
  import opened Results

  /** `Atom` and `Variable` carry only a name; a `Predicate` also carries its
      argument terms in order. */
  datatype Term =
    | Atom(name: string)
    | Variable(name: string)
    | Predicate(name: string, terms: seq<Term>)

  /** The Kotlin static type `Predicate`. */
  type PredicateTerm = t: Term | t.Predicate? witness Predicate("", [])

  /** The constructor `Predicate(name, terms)` at the type `PredicateTerm`. */
  function MakePredicate(name: string, terms: seq<Term>): PredicateTerm {
    Predicate(name, terms)
  }

  datatype Clause = Clause(head: PredicateTerm, body: seq<PredicateTerm>)

  // ---------------------------------------------------------------------------
  // equals

  /** The runtime class test `javaClass == other.javaClass`. */
  predicate SameClass(a: Term, b: Term) {
    (a.Atom? && b.Atom?) || (a.Variable? && b.Variable?) || (a.Predicate? && b.Predicate?)
  }

  /** `a.equals(b)`: `Term.equals` compares the class and the name; `Predicate.equals`
      adds the comparison of the argument lists. */
  predicate TermEquals(a: Term, b: Term)
    decreases a
  {
    SameClass(a, b) && a.name == b.name && (a.Predicate? ==> ListEquals(a.terms, b.terms))
  }

  /** `List.equals` over terms: same size and pairwise `equals`, in order. */
  predicate ListEquals(xs: seq<Term>, ys: seq<Term>)
    decreases xs
  {
    |xs| == |ys| && forall k :: 0 <= k < |xs| ==> TermEquals(xs[k], ys[k])
  }

  /** `Clause.equals`. */
  predicate ClauseEquals(c: Clause, d: Clause) {
    TermEquals(c.head, d.head) && ListEquals(c.body, d.body)
  }

  /** The hand-written `equals` is exactly structural equality. */
  lemma {:induction false} TermEqualsIsStructural(a: Term, b: Term)
    ensures TermEquals(a, b) <==> a == b
    decreases a
  {
    if a.Predicate? && b.Predicate? {
      ListEqualsIsStructural(a.terms, b.terms);
    }
  }

  lemma {:induction false} ListEqualsIsStructural(xs: seq<Term>, ys: seq<Term>)
    ensures ListEquals(xs, ys) <==> xs == ys
    decreases xs
  {
    if |xs| == |ys| {
      forall k | 0 <= k < |xs| ensures TermEquals(xs[k], ys[k]) <==> xs[k] == ys[k] {
        TermEqualsIsStructural(xs[k], ys[k]);
      }
      if forall k :: 0 <= k < |xs| ==> xs[k] == ys[k] {
        assert xs == ys;
      }
    }
  }

  /** Two clauses are equal exactly when their heads are equal and their
      bodies are equal element by element, in order. */
  lemma ClauseEqualsIsStructural(c: Clause, d: Clause)
    ensures ClauseEquals(c, d) <==> c.head == d.head && |c.body| == |d.body|
                                    && forall k :: 0 <= k < |c.body| ==> c.body[k] == d.body[k]
    ensures ClauseEquals(c, d) <==> c == d
  {
    TermEqualsIsStructural(c.head, d.head);
    ListEqualsIsStructural(c.body, d.body);
  }

  /** Variants are told apart even when the names agree. */
  lemma AtomIsNotVariable(n: string)
    ensures !TermEquals(Atom(n), Variable(n)) && !TermEquals(Atom(n), Predicate(n, []))
  {
  }

  // ---------------------------------------------------------------------------
  // encode

  datatype EncodeError =
    | UnknownTerm(name: string)       // "Unknown term: <name>" of Term.encode
    | UnknownPredicate(name: string)  // "Unknown predicate: <name>" of Predicate.encode

  /** What `t.encode(mapping)` returns or throws: a leaf gives its name's code;
      a predicate gives its name's code followed by its arguments' encodings. */
  function Encoding(t: Term, mapping: map<string, int>): Result<seq<int>, EncodeError>
    decreases t
  {
    if !t.Predicate? then
      if t.name in mapping then Ok([mapping[t.name]]) else Err(UnknownTerm(t.name))
    else if t.name !in mapping then Err(UnknownPredicate(t.name))
    else
      match EncodingAll(t.terms, mapping)
      case Err(e) => Err(e)
      case Ok(v) => Ok([mapping[t.name]] + v)
  }

  /** The arguments' encodings concatenated in order; the first failure wins. */
  function EncodingAll(ts: seq<Term>, mapping: map<string, int>): Result<seq<int>, EncodeError>
    decreases ts
  {
    if ts == [] then Ok([])
    else
      match EncodingAll(ts[..|ts| - 1], mapping)
      case Err(e) => Err(e)
      case Ok(v) =>
        match Encoding(ts[|ts| - 1], mapping)
        case Err(e) => Err(e)
        case Ok(w) => Ok(v + w)
  }

  /** `Term.encode` and its override `Predicate.encode`, which builds its
      result with `add` and `addAll` in a loop over the arguments. */
  method Encode(t: Term, mapping: map<string, int>) returns (r: Result<seq<int>, EncodeError>)
    ensures r == Encoding(t, mapping)
    decreases t
  {
    if !t.Predicate? {
      if t.name in mapping {
        r := Ok([mapping[t.name]]);
      } else {
        r := Err(UnknownTerm(t.name));
      }
      return;
    }
    if t.name !in mapping {
      return Err(UnknownPredicate(t.name));
    }
    var result := [mapping[t.name]];
    for i := 0 to |t.terms|
      invariant EncodingAll(t.terms[..i], mapping).Ok?
      invariant result == [mapping[t.name]] + EncodingAll(t.terms[..i], mapping).value
    {
      assert t.terms[..i + 1][..i] == t.terms[..i];
      var e := Encode(t.terms[i], mapping);
      if e.Err? {
        EncodingAllKeepsFirstError(t.terms, i + 1, mapping);
        return Err(e.error);
      }
      result := result + e.value;
    }
    assert t.terms[..|t.terms|] == t.terms;
    return Ok(result);
  }

  /** Once a prefix of the arguments fails, the whole argument list fails with the same error. */
  lemma {:induction false} EncodingAllKeepsFirstError(ts: seq<Term>, n: nat, mapping: map<string, int>)
    requires n <= |ts| && EncodingAll(ts[..n], mapping).Err?
    ensures EncodingAll(ts, mapping) == EncodingAll(ts[..n], mapping)
    decreases |ts|
  {
    if n < |ts| {
      assert ts[..|ts| - 1][..n] == ts[..n];
      EncodingAllKeepsFirstError(ts[..|ts| - 1], n, mapping);
    } else {
      assert ts[..n] == ts;
    }
  }

  // ---------------------------------------------------------------------------
  // A reference for the encoding: the names of a tree in pre-order

  /** The names of `t`, parent before children, children left to right. */
  function PreOrder(t: Term): seq<string>
    decreases t
  {
    if t.Predicate? then [t.name] + PreOrderAll(t.terms) else [t.name]
  }

  function PreOrderAll(ts: seq<Term>): seq<string>
    decreases ts
  {
    if ts == [] then [] else PreOrderAll(ts[..|ts| - 1]) + PreOrder(ts[|ts| - 1])
  }

  /** The number of nodes of `t`. */
  function Size(t: Term): nat
    decreases t
  {
    if t.Predicate? then 1 + SizeAll(t.terms) else 1
  }

  function SizeAll(ts: seq<Term>): nat
    decreases ts
  {
    if ts == [] then 0 else SizeAll(ts[..|ts| - 1]) + Size(ts[|ts| - 1])
  }

  /** Every name of `ns` is a key of `mapping`. */
  predicate AllKnown(ns: seq<string>, mapping: map<string, int>) {
    forall k :: 0 <= k < |ns| ==> ns[k] in mapping
  }

  /** `name` is the first name of `ns` that `mapping` lacks. */
  predicate FirstUnknown(ns: seq<string>, mapping: map<string, int>, name: string) {
    exists k :: 0 <= k < |ns| && ns[k] !in mapping && ns[k] == name
                && forall j :: 0 <= j < k ==> ns[j] in mapping
  }

  /** The encoding succeeds exactly when every name of the tree is a key; it
      is then the tree's names in pre-order, each replaced by its code, and
      otherwise it reports the first unknown name in pre-order. */
  lemma {:induction false} EncodingIsPreOrder(t: Term, mapping: map<string, int>)
    ensures Encoding(t, mapping).Ok? <==> AllKnown(PreOrder(t), mapping)
    ensures Encoding(t, mapping).Ok? ==> Encoding(t, mapping).value == Codes(PreOrder(t), mapping)
    ensures Encoding(t, mapping).Err? ==> FirstUnknown(PreOrder(t), mapping, Encoding(t, mapping).error.name)
    decreases t
  {
    if t.Predicate? {
      EncodingAllIsPreOrder(t.terms, mapping);
      KnownAppend([t.name], PreOrderAll(t.terms), mapping);
    } else {
      KnownAppend([t.name], [], mapping);
      assert [t.name] + [] == [t.name];
    }
  }

  lemma {:induction false} EncodingAllIsPreOrder(ts: seq<Term>, mapping: map<string, int>)
    ensures EncodingAll(ts, mapping).Ok? <==> AllKnown(PreOrderAll(ts), mapping)
    ensures EncodingAll(ts, mapping).Ok? ==> EncodingAll(ts, mapping).value == Codes(PreOrderAll(ts), mapping)
    ensures EncodingAll(ts, mapping).Err? ==> FirstUnknown(PreOrderAll(ts), mapping, EncodingAll(ts, mapping).error.name)
    decreases ts
  {
    if ts != [] {
      EncodingAllIsPreOrder(ts[..|ts| - 1], mapping);
      EncodingIsPreOrder(ts[|ts| - 1], mapping);
      KnownAppend(PreOrderAll(ts[..|ts| - 1]), PreOrder(ts[|ts| - 1]), mapping);
    }
  }

  /** The codes of `ns`, as far as `mapping` knows them. */
  function Codes(ns: seq<string>, mapping: map<string, int>): (cs: seq<int>)
    ensures |cs| <= |ns|
    ensures AllKnown(ns, mapping) ==> |cs| == |ns| && forall k :: 0 <= k < |ns| ==> cs[k] == mapping[ns[k]]
  {
    if ns == [] || ns[0] !in mapping then [] else [mapping[ns[0]]] + Codes(ns[1..], mapping)
  }

  /** How `AllKnown`, `Codes` and `FirstUnknown` distribute over `a + b`. */
  lemma {:induction false} KnownAppend(a: seq<string>, b: seq<string>, mapping: map<string, int>)
    ensures AllKnown(a + b, mapping) <==> AllKnown(a, mapping) && AllKnown(b, mapping)
    ensures AllKnown(a, mapping) && AllKnown(b, mapping) ==>
      Codes(a + b, mapping) == Codes(a, mapping) + Codes(b, mapping)
    ensures forall e :: FirstUnknown(a, mapping, e) ==> FirstUnknown(a + b, mapping, e)
    ensures forall e :: AllKnown(a, mapping) && FirstUnknown(b, mapping, e) ==> FirstUnknown(a + b, mapping, e)
  {
    var ab := a + b;
    if AllKnown(ab, mapping) {
      forall k | 0 <= k < |a| ensures a[k] in mapping { assert a[k] == ab[k]; }
      forall k | 0 <= k < |b| ensures b[k] in mapping { assert b[k] == ab[|a| + k]; }
    }
    forall e | FirstUnknown(a, mapping, e) ensures FirstUnknown(ab, mapping, e) {
      var k :| 0 <= k < |a| && a[k] !in mapping && a[k] == e && forall j :: 0 <= j < k ==> a[j] in mapping;
      assert ab[k] == a[k];
      assert forall j :: 0 <= j < k ==> ab[j] == a[j];
    }
    forall e | AllKnown(a, mapping) && FirstUnknown(b, mapping, e) ensures FirstUnknown(ab, mapping, e) {
      var k :| 0 <= k < |b| && b[k] !in mapping && b[k] == e && forall j :: 0 <= j < k ==> b[j] in mapping;
      assert ab[|a| + k] == b[k];
      forall j | 0 <= j < |a| + k ensures ab[j] in mapping {
        if j >= |a| { assert ab[j] == b[j - |a|]; }
      }
    }
  }

  /** `|PreOrder(t)|` counts the nodes of `t`. */
  lemma {:induction false} PreOrderSize(t: Term)
    ensures |PreOrder(t)| == Size(t)
    decreases t
  {
    if t.Predicate? { PreOrderAllSize(t.terms); }
  }

  lemma {:induction false} PreOrderAllSize(ts: seq<Term>)
    ensures |PreOrderAll(ts)| == SizeAll(ts)
    decreases ts
  {
    if ts != [] {
      PreOrderAllSize(ts[..|ts| - 1]);
      PreOrderSize(ts[|ts| - 1]);
    }
  }

  /** A successful encoding has one integer per node of the tree, and it
      starts with the code of the root's name. */
  lemma EncodingLength(t: Term, mapping: map<string, int>)
    requires Encoding(t, mapping).Ok?
    ensures |Encoding(t, mapping).value| == Size(t)
    ensures Encoding(t, mapping).value[0] == mapping[t.name]
  {
    EncodingIsPreOrder(t, mapping);
    PreOrderSize(t);
  }

  /** A predicate's encoding is its name's code followed by the encodings of
      its arguments, concatenated in argument order. */
  lemma {:induction false} EncodingOfPredicate(n: string, ts: seq<Term>, mapping: map<string, int>)
    requires n in mapping
    requires forall k :: 0 <= k < |ts| ==> Encoding(ts[k], mapping).Ok?
    ensures Encoding(Predicate(n, ts), mapping).Ok?
    ensures Encoding(Predicate(n, ts), mapping).value == [mapping[n]] + ConcatEncodings(ts, mapping)
  {
    EncodingAllConcat(ts, mapping);
  }

  /** The concatenation of the encodings of `ts`, assuming they all succeed. */
  function ConcatEncodings(ts: seq<Term>, mapping: map<string, int>): seq<int>
    requires forall k :: 0 <= k < |ts| ==> Encoding(ts[k], mapping).Ok?
  {
    if ts == [] then [] else Encoding(ts[0], mapping).value + ConcatEncodings(ts[1..], mapping)
  }

  lemma {:induction false} EncodingAllConcat(ts: seq<Term>, mapping: map<string, int>)
    requires forall k :: 0 <= k < |ts| ==> Encoding(ts[k], mapping).Ok?
    ensures EncodingAll(ts, mapping) == Ok(ConcatEncodings(ts, mapping))
    decreases |ts|
  {
    if ts != [] {
      var init := ts[..|ts| - 1];
      EncodingAllConcat(init, mapping);
      ConcatEncodingsSnoc(init, ts[|ts| - 1], mapping);
      assert init + [ts[|ts| - 1]] == ts;
    }
  }

  lemma {:induction false} ConcatEncodingsSnoc(ts: seq<Term>, t: Term, mapping: map<string, int>)
    requires forall k :: 0 <= k < |ts| ==> Encoding(ts[k], mapping).Ok?
    requires Encoding(t, mapping).Ok?
    ensures ConcatEncodings(ts + [t], mapping) == ConcatEncodings(ts, mapping) + Encoding(t, mapping).value
    decreases |ts|
  {
    if ts != [] {
      assert (ts + [t])[1..] == ts[1..] + [t];
      ConcatEncodingsSnoc(ts[1..], t, mapping);
    }
  }

  /** Pre-order encoding without arities is not injective: `a` and `a()` encode alike. */
  lemma EncodingForgetsArity(n: string, mapping: map<string, int>)
    requires n in mapping
    ensures Atom(n) != Predicate(n, [])
    ensures Encoding(Atom(n), mapping) == Encoding(Predicate(n, []), mapping) == Ok([mapping[n]])
  {
    assert [mapping[n]] + [] == [mapping[n]];
  }
}
