/** The Kotlin `String` operations the parser relies on, on `string`
    (`seq<char>`), each with the behaviour of the Kotlin standard library. */
module KotlinStrings {

  /** The characters Kotlin's `Char.isWhitespace` accepts below U+0080:
      tab, line feed, vertical tab, form feed, carriage return, U+001C..U+001F
      and the space. */
  const WHITESPACE: set<char> :=
    {'\t', '\n', '\U{B}', '\U{C}', '\r', '\U{1C}', '\U{1D}', '\U{1E}', '\U{1F}', ' '}

  /** `String.isBlank()`. */
  predicate IsBlank(s: string) {
    forall i :: 0 <= i < |s| ==> s[i] in WHITESPACE
  }

  /** `Char.isUpperCase()` on ASCII letters. */
  predicate IsUpperCase(c: char) {
    'A' <= c <= 'Z'
  }

  /** `s.startsWith(prefix)`. */
  predicate StartsWith(s: string, prefix: string) {
    |prefix| <= |s| && s[..|prefix|] == prefix
  }

  /** `s.endsWith(suffix)`. */
  predicate EndsWith(s: string, suffix: string) {
    |suffix| <= |s| && s[|s| - |suffix|..] == suffix
  }

  /** `d` occurs in `s` starting at position `i`. */
  predicate OccursAt(s: string, d: string, i: int) {
    0 <= i && i + |d| <= |s| && s[i..i + |d|] == d
  }

  /** `s.indexOf(d, from)`: the first position at or after `from` where `d` occurs, or -1. */
  function IndexOfFrom(s: string, d: string, from: nat): (i: int)
    ensures i == -1 || (from <= i && OccursAt(s, d, i))
    ensures forall j :: from <= j && (i == -1 || j < i) ==> !OccursAt(s, d, j)
    decreases |s| - from
  {
    if from + |d| > |s| then -1
    else if s[from..from + |d|] == d then from
    else IndexOfFrom(s, d, from + 1)
  }

  /** `s.indexOf(d)`. */
  function IndexOf(s: string, d: string): (i: int)
    ensures i == -1 || OccursAt(s, d, i)
    ensures forall j :: 0 <= j && (i == -1 || j < i) ==> !OccursAt(s, d, j)
  {
    IndexOfFrom(s, d, 0)
  }

  /** `s.contains(d)`. */
  predicate Contains(s: string, d: string) {
    IndexOf(s, d) >= 0
  }

  /** `indexOfFirst` with a membership test: the first position of a character
      of `cs`, or -1. */
  function IndexOfFirst(s: string, cs: set<char>): (i: int)
    ensures -1 <= i < |s|
    ensures i >= 0 ==> s[i] in cs
    ensures forall j :: 0 <= j < |s| && (i == -1 || j < i) ==> s[j] !in cs
  {
    if s == [] then -1
    else if s[0] in cs then 0
    else
      var i := IndexOfFirst(s[1..], cs);
      if i < 0 then -1 else i + 1
  }

  /** `s.substringBefore(d)`: the text before the first `d`, or all of `s` without one. */
  function SubstringBefore(s: string, d: string): (r: string)
    ensures Contains(s, d) ==> r == s[..IndexOf(s, d)]
    ensures Contains(s, d) && d != [] ==> !Contains(r, d)
    ensures !Contains(s, d) ==> r == s
  {
    var i := IndexOf(s, d);
    if i < 0 then s
    else
      assert d != [] ==> !Contains(s[..i], d) by {
        if d != [] {
          forall j | 0 <= j ensures !OccursAt(s[..i], d, j) {
            if OccursAt(s[..i], d, j) {
              assert s[..i][j..j + |d|] == s[j..j + |d|];
              assert OccursAt(s, d, j) && j < i;
            }
          }
        }
      }
      s[..i]
  }

  /** `s.substringAfter(d)`: the text after the first `d`, or all of `s` without one
      (Kotlin's default for a missing delimiter). */
  function SubstringAfter(s: string, d: string): (r: string)
    ensures Contains(s, d) ==> s == SubstringBefore(s, d) + d + r
    ensures !Contains(s, d) ==> r == s
  {
    var i := IndexOf(s, d);
    if i < 0 then s
    else
      assert s == s[..i] + s[i..i + |d|] + s[i + |d|..];
      s[i + |d|..]
  }

  /** `s.split(d)` for a non-empty delimiter: cuts `s` at every occurrence of `d`,
      searching left to right, and keeps empty pieces (also the trailing ones). */
  function Split(s: string, d: string): (parts: seq<string>)
    requires d != []
    ensures |parts| >= 1
    ensures parts[0] == SubstringBefore(s, d)
    ensures !Contains(s, d) ==> parts == [s]
    ensures Contains(s, d) <==> |parts| >= 2
    ensures Contains(s, d) ==> |parts[0]| + |d| + |parts[1]| <= |s|
    ensures forall k :: 0 <= k < |parts| ==> |parts[k]| <= |s|
    decreases |s|
  {
    var i := IndexOf(s, d);
    if i < 0 then [s]
    else [s[..i]] + Split(s[i + |d|..], d)
  }

  /** `s.lines()`: cuts at "\r\n", "\n" and "\r", where "\r\n" is one line break. */
  function Lines(s: string): (ls: seq<string>)
    ensures |ls| >= 1
    ensures forall k :: 0 <= k < |ls| ==> '\n' !in ls[k] && '\r' !in ls[k]
    decreases |s|
  {
    var i := IndexOfFirst(s, {'\n', '\r'});
    if i < 0 then
      assert '\n' !in s && '\r' !in s;
      [s]
    else
      assert '\n' !in s[..i] && '\r' !in s[..i];
      [s[..i]] + Lines(s[i + BreakWidth(s, i)..])
  }

  /** The width of the line break at `i`: 2 for "\r\n", 1 otherwise. */
  function BreakWidth(s: string, i: nat): (w: nat)
    requires i < |s|
    ensures 1 <= w <= 2 && i + w <= |s|
  {
    if s[i] == '\r' && i + 1 < |s| && s[i + 1] == '\n' then 2 else 1
  }

  /** `s.trimEnd(*cs)`: drops the longest suffix made of characters of `cs`. */
  function TrimEnd(s: string, cs: set<char>): (r: string)
    ensures |r| <= |s| && r == s[..|r|]
    ensures r == [] || r[|r| - 1] !in cs
    ensures forall i :: |r| <= i < |s| ==> s[i] in cs
  {
    if s != [] && s[|s| - 1] in cs then TrimEnd(s[..|s| - 1], cs) else s
  }

  /** `s.trim()`: drops leading and trailing whitespace. */
  function Trim(s: string): (r: string)
    ensures |r| <= |s|
  {
    if s == [] then []
    else if s[0] in WHITESPACE then Trim(s[1..])
    else if s[|s| - 1] in WHITESPACE then Trim(s[..|s| - 1])
    else s
  }

  /** Every character `Trim` keeps comes from `s`. */
  lemma {:induction false} TrimKeepsChars(s: string)
    ensures forall c :: c in Trim(s) ==> c in s
    decreases |s|
  {
    if s != [] && s[0] in WHITESPACE {
      TrimKeepsChars(s[1..]);
    } else if s != [] && s[|s| - 1] in WHITESPACE {
      TrimKeepsChars(s[..|s| - 1]);
      assert forall c :: c in s[..|s| - 1] ==> c in s;
    }
  }

  /** `Trim` keeps no whitespace at either end. */
  lemma {:induction false} TrimEnds(s: string)
    ensures var r := Trim(s); r != [] ==> r[0] !in WHITESPACE && r[|r| - 1] !in WHITESPACE
    decreases |s|
  {
    if s != [] && s[0] in WHITESPACE {
      TrimEnds(s[1..]);
    } else if s != [] && s[|s| - 1] in WHITESPACE {
      TrimEnds(s[..|s| - 1]);
    }
  }

  /** `Trim` yields the empty string exactly on blank text. */
  lemma {:induction false} TrimEmptyIffBlank(s: string)
    ensures Trim(s) == [] <==> IsBlank(s)
    decreases |s|
  {
    if s != [] && s[0] in WHITESPACE {
      TrimEmptyIffBlank(s[1..]);
      assert IsBlank(s) <==> IsBlank(s[1..]) by {
        if IsBlank(s[1..]) {
          forall i | 0 <= i < |s| ensures s[i] in WHITESPACE { if i > 0 { assert s[i] == s[1..][i - 1]; } }
        }
      }
    } else if s != [] && s[|s| - 1] in WHITESPACE {
      var t := s[..|s| - 1];
      TrimEmptyIffBlank(t);
      assert t[0] == s[0];
    } else if s != [] {
      assert s[0] !in WHITESPACE;
    }
  }

  /** `replace` of a one-character text by the empty text: deletes every `c`. */
  function RemoveChar(s: string, c: char): (r: string)
    ensures |r| <= |s|
    ensures c !in r
    ensures forall x :: x in r <==> x in s && x != c
  {
    if s == [] then []
    else if s[0] == c then RemoveChar(s[1..], c)
    else [s[0]] + RemoveChar(s[1..], c)
  }

  /** `parts.joinToString(d)`: the inverse of `Split`. */
  function Join(parts: seq<string>, d: string): string
    requires |parts| >= 1
  {
    if |parts| == 1 then parts[0] else parts[0] + d + Join(parts[1..], d)
  }

  // ---------------------------------------------------------------------------
  // Properties of the helpers

  /** A one-character delimiter occurs exactly when the character does. */
  lemma ContainsChar(s: string, c: char)
    ensures Contains(s, [c]) <==> c in s
  {
    if c in s {
      var j :| 0 <= j < |s| && s[j] == c;
      assert OccursAt(s, [c], j);
    }
    if Contains(s, [c]) {
      var i := IndexOf(s, [c]);
      assert s[i] == s[i..i + 1][0] == c;
    }
  }

  /** Every character of a contained text is a character of the text. */
  lemma ContainsKeepsChars(s: string, d: string)
    ensures Contains(s, d) ==> forall c :: c in d ==> c in s
  {
    if Contains(s, d) {
      var i := IndexOf(s, d);
      forall c | c in d ensures c in s {
        var j :| 0 <= j < |d| && d[j] == c;
        assert s[i + j] == s[i..i + |d|][j];
      }
    }
  }

  /** The first occurrence of `d` at `i` fixes `indexOf` and the texts before
      and after it. */
  lemma FirstOccurrence(s: string, d: string, i: nat)
    requires OccursAt(s, d, i) && forall j :: 0 <= j < i ==> !OccursAt(s, d, j)
    ensures IndexOf(s, d) == i && Contains(s, d)
    ensures SubstringBefore(s, d) == s[..i] && SubstringAfter(s, d) == s[i + |d|..]
  {
    var k := IndexOf(s, d);
    assert k != -1 && !(k < i) && !(i < k);
    assert s == s[..i] + d + s[i + |d|..];
  }

  /** Text that contains `d + e` contains `d`. */
  lemma ContainsPrefix(s: string, d: string, e: string)
    requires Contains(s, d + e)
    ensures Contains(s, d)
  {
    var i := IndexOf(s, d + e);
    assert s[i..i + |d|] == s[i..i + |d + e|][..|d|];
    assert OccursAt(s, d, i);
  }

  /** Text that contains `d + e` contains `e`. */
  lemma ContainsSuffix(s: string, d: string, e: string)
    requires Contains(s, d + e)
    ensures Contains(s, e)
  {
    var i := IndexOf(s, d + e);
    assert s[i + |d|..i + |d| + |e|] == s[i..i + |d + e|][|d|..];
    assert OccursAt(s, e, i + |d|);
  }

  /** `Split` cuts at the first occurrence of the delimiter when it is right
      after `a` and does not start earlier. */
  lemma SplitAfterFirst(a: string, d: string, b: string)
    requires d != []
    requires forall j :: 0 <= j < |a| ==> !OccursAt(a + d + b, d, j)
    ensures Split(a + d + b, d) == [a] + Split(b, d)
  {
    var s := a + d + b;
    assert OccursAt(s, d, |a|) by {
      assert s[|a|..|a| + |d|] == d;
    }
    var i := IndexOf(s, d);
    assert i == |a|;
    assert s[..i] == a && s[i + |d|..] == b;
  }

  /** A character that is not in `a` splits `a + [c] + b` right after `a`. */
  lemma SplitAfterChar(a: string, c: char, b: string)
    requires c !in a
    ensures Split(a + [c] + b, [c]) == [a] + Split(b, [c])
  {
    forall j | 0 <= j < |a| ensures !OccursAt(a + [c] + b, [c], j) {
      assert (a + [c] + b)[j] == a[j];
    }
    SplitAfterFirst(a, [c], b);
  }

  /** Around the first `c`: the texts before and after it. */
  lemma FirstChar(a: string, c: char, b: string)
    requires c !in a
    ensures SubstringBefore(a + [c] + b, [c]) == a && SubstringAfter(a + [c] + b, [c]) == b
  {
    var s := a + [c] + b;
    forall j | 0 <= j < |a| ensures !OccursAt(s, [c], j) {
      assert s[j] == a[j];
    }
    assert s[|a|..|a| + 1] == [c];
    FirstOccurrence(s, [c], |a|);
    assert s[..|a|] == a && s[|a| + 1..] == b;
  }

  /** `parts.joinToString(d)` undoes `s.split(d)`. */
  lemma {:induction false} JoinSplit(s: string, d: string)
    requires d != []
    ensures Join(Split(s, d), d) == s
    decreases |s|
  {
    var i := IndexOf(s, d);
    if i >= 0 {
      var rest := s[i + |d|..];
      JoinSplit(rest, d);
      JoinPieces(s, d, i, Split(s, d), Split(rest, d));
    }
  }

  /** Joining the text before an occurrence of `d` with pieces that join to
      the text after it gives back the whole string. */
  lemma JoinPieces(s: string, d: string, i: nat, parts: seq<string>, tail: seq<string>)
    requires OccursAt(s, d, i) && |tail| >= 1
    requires parts == [s[..i]] + tail && Join(tail, d) == s[i + |d|..]
    ensures Join(parts, d) == s
  {
    assert parts[1..] == tail;
    assert s[..i + |d|] == s[..i] + d;
  }

  /** No piece of `s.split(d)` contains the delimiter. */
  lemma {:induction false} SplitPiecesAreFree(s: string, d: string)
    requires d != []
    ensures forall k :: 0 <= k < |Split(s, d)| ==> !Contains(Split(s, d)[k], d)
    decreases |s|
  {
    var i := IndexOf(s, d);
    if i >= 0 {
      var first := s[..i];
      var tail := Split(s[i + |d|..], d);
      SplitPiecesAreFree(s[i + |d|..], d);
      var parts := Split(s, d);
      assert parts == [first] + tail;
      forall j | 0 <= j ensures !OccursAt(first, d, j) {
        if j + |d| <= |first| {
          assert first[j..j + |d|] == s[j..j + |d|];
        }
      }
      forall k | 0 <= k < |parts| ensures !Contains(parts[k], d) {
        if k > 0 { assert parts[k] == tail[k - 1]; }
      }
    }
  }

  /** Text without whitespace at either end is its own trim. */
  lemma TrimOfTrimmed(s: string)
    requires s != [] && s[0] !in WHITESPACE && s[|s| - 1] !in WHITESPACE
    ensures Trim(s) == s
  {
  }

  /** Trimming twice trims no more than once. */
  lemma TrimIdempotent(s: string)
    ensures Trim(Trim(s)) == Trim(s)
  {
    TrimEnds(s);
    if Trim(s) != [] {
      TrimOfTrimmed(Trim(s));
    }
  }

  /** Removing a character that does not occur changes nothing. */
  lemma {:induction false} RemoveAbsentChar(s: string, c: char)
    requires c !in s
    ensures RemoveChar(s, c) == s
    decreases |s|
  {
    if s != [] {
      RemoveAbsentChar(s[1..], c);
      assert s == [s[0]] + s[1..];
    }
  }

  /** `RemoveChar` works character by character: on a concatenation it is the
      concatenation of the two results, a lone `c` is dropped and any other lone
      character is kept. So the characters other than `c` stay, in order. */
  lemma {:induction false} RemoveCharByChar(a: string, b: string, c: char)
    ensures RemoveChar(a + b, c) == RemoveChar(a, c) + RemoveChar(b, c)
    ensures forall x :: RemoveChar([x], c) == if x == c then [] else [x]
    decreases |a|
  {
    if a != [] {
      assert (a + b)[1..] == a[1..] + b;
      RemoveCharByChar(a[1..], b, c);
    } else {
      assert a + b == b;
    }
    forall x ensures RemoveChar([x], c) == if x == c then [] else [x] {
      RemoveCharOne(x, c);
    }
  }

  lemma RemoveCharOne(x: char, c: char)
    ensures RemoveChar([x], c) == if x == c then [] else [x]
  {
    assert [x][1..] == [];
  }

  /** `RemoveChar` drops every `c` and keeps every other character as often as
      it occurs. */
  lemma {:induction false} RemoveCharCounts(s: string, c: char)
    ensures multiset(RemoveChar(s, c)) == multiset(s)[c := 0]
    decreases |s|
  {
    if s != [] {
      RemoveCharCounts(s[1..], c);
      assert s == [s[0]] + s[1..];
      assert multiset(s) == multiset{s[0]} + multiset(s[1..]);
    }
  }

  /** `Trim` keeps a middle slice of `s` and drops a blank prefix and a blank
      suffix; the slice it keeps has no whitespace at either end. */
  lemma {:induction false} TrimIsSlice(s: string)
    ensures exists i, j :: 0 <= i <= j <= |s| && Trim(s) == s[i..j] && IsBlank(s[..i]) && IsBlank(s[j..])
    ensures Trim(s) == [] || (Trim(s)[0] !in WHITESPACE && Trim(s)[|Trim(s)| - 1] !in WHITESPACE)
    decreases |s|
  {
    TrimEnds(s);
    if s == [] {
      assert Trim(s) == s[0..0] && IsBlank(s[..0]) && IsBlank(s[0..]);
    } else if s[0] in WHITESPACE {
      TrimIsSlice(s[1..]);
      var i, j :| 0 <= i <= j <= |s[1..]| && Trim(s[1..]) == s[1..][i..j] && IsBlank(s[1..][..i]) && IsBlank(s[1..][j..]);
      SliceAfterFirst(s, i, j);
    } else if s[|s| - 1] in WHITESPACE {
      TrimIsSlice(s[..|s| - 1]);
      var i, j :| 0 <= i <= j <= |s[..|s| - 1]| && Trim(s[..|s| - 1]) == s[..|s| - 1][i..j]
                  && IsBlank(s[..|s| - 1][..i]) && IsBlank(s[..|s| - 1][j..]);
      SliceBeforeLast(s, i, j);
    } else {
      assert Trim(s) == s[0..|s|] && IsBlank(s[..0]) && IsBlank(s[|s|..]);
    }
  }

  /** A slice of `s` after a leading blank is a slice of `s`. */
  lemma SliceAfterFirst(s: string, i: nat, j: nat)
    requires s != [] && s[0] in WHITESPACE && i <= j <= |s| - 1
    requires Trim(s[1..]) == s[1..][i..j] && IsBlank(s[1..][..i]) && IsBlank(s[1..][j..])
    ensures Trim(s) == s[i + 1..j + 1] && IsBlank(s[..i + 1]) && IsBlank(s[j + 1..])
  {
    var t := s[1..];
    assert t[i..j] == s[i + 1..j + 1] && t[j..] == s[j + 1..];
    assert s[..i + 1] == [s[0]] + t[..i];
    BlankAppend([s[0]], t[..i]);
  }

  /** A slice of `s` before a trailing blank is a slice of `s`. */
  lemma SliceBeforeLast(s: string, i: nat, j: nat)
    requires s != [] && s[0] !in WHITESPACE && s[|s| - 1] in WHITESPACE && i <= j <= |s| - 1
    requires var t := s[..|s| - 1]; Trim(t) == t[i..j] && IsBlank(t[..i]) && IsBlank(t[j..])
    ensures Trim(s) == s[i..j] && IsBlank(s[..i]) && IsBlank(s[j..])
  {
    var t := s[..|s| - 1];
    assert t[i..j] == s[i..j] && t[..i] == s[..i];
    assert s[j..] == t[j..] + [s[|s| - 1]];
    BlankAppend(t[j..], [s[|s| - 1]]);
  }

  /** Blank text stays blank when joined. */
  lemma BlankAppend(a: string, b: string)
    requires IsBlank(a) && IsBlank(b)
    ensures IsBlank(a + b)
  {
    forall i | 0 <= i < |a + b| ensures (a + b)[i] in WHITESPACE {
      if i >= |a| { assert (a + b)[i] == b[i - |a|]; }
    }
  }

  /** `Trim(TrimEnd(s, cs))` keeps a slice of `s` and drops a blank prefix and a
      suffix made of whitespace and characters of `cs`. */
  lemma TrimEndThenTrim(s: string, cs: set<char>)
    ensures exists i, j :: 0 <= i <= j <= |s| && Trim(TrimEnd(s, cs)) == s[i..j] && IsBlank(s[..i])
                           && forall k :: j <= k < |s| ==> s[k] in WHITESPACE + cs
  {
    var u := TrimEnd(s, cs);
    TrimIsSlice(u);
    var i, j :| 0 <= i <= j <= |u| && Trim(u) == u[i..j] && IsBlank(u[..i]) && IsBlank(u[j..]);
    assert u == s[..|u|];
    assert u[i..j] == s[i..j] && u[..i] == s[..i];
    forall k | j <= k < |s| ensures s[k] in WHITESPACE + cs {
      if k < |u| {
        assert s[k] == u[j..][k - j];
      }
    }
  }

  /** `Contains` holds exactly when `d` occurs somewhere in `s`. */
  lemma ContainsIffOccurs(s: string, d: string)
    ensures Contains(s, d) <==> exists i :: OccursAt(s, d, i)
  {
    if Contains(s, d) {
      assert OccursAt(s, d, IndexOf(s, d));
    }
  }

  /** `StartsWith` holds exactly when `s` is `prefix` followed by more text. */
  lemma StartsWithIffPrefix(s: string, prefix: string)
    ensures StartsWith(s, prefix) <==> exists t :: s == prefix + t
  {
    if StartsWith(s, prefix) {
      assert s == prefix + s[|prefix|..];
    }
    if exists t :: s == prefix + t {
      var t :| s == prefix + t;
      assert s[..|prefix|] == prefix;
    }
  }

  /** The line breaks `Lines` cuts at, in order: "\r\n", "\n" or "\r". */
  function LineBreaks(s: string): (bs: seq<string>)
    ensures |bs| == |Lines(s)| - 1
    ensures forall k :: 0 <= k < |bs| ==> bs[k] == "\n" || bs[k] == "\r" || bs[k] == "\r\n"
    decreases |s|
  {
    var i := IndexOfFirst(s, {'\n', '\r'});
    if i < 0 then []
    else [BreakAt(s, i)] + LineBreaks(s[i + BreakWidth(s, i)..])
  }

  /** The line break at position `i`. */
  function BreakAt(s: string, i: nat): (b: string)
    requires i < |s| && (s[i] == '\n' || s[i] == '\r')
    ensures b == "\n" || b == "\r" || b == "\r\n"
    ensures b == s[i..i + BreakWidth(s, i)]
  {
    if BreakWidth(s, i) == 2 then "\r\n" else [s[i]]
  }

  /** The lines joined again, each break put back between two lines. */
  function Rejoin(ls: seq<string>, bs: seq<string>): string
    requires |ls| == |bs| + 1
  {
    if bs == [] then ls[0] else ls[0] + bs[0] + Rejoin(ls[1..], bs[1..])
  }

  /** `Lines` loses nothing: putting the breaks back between the lines rebuilds
      `s`; and a lone "\r" is never followed by "\n", since "\r\n" is one break. */
  lemma LinesRebuild(s: string)
    ensures Rejoin(Lines(s), LineBreaks(s)) == s
    ensures forall k :: 0 <= k < |LineBreaks(s)| && LineBreaks(s)[k] == "\r" ==>
              !StartsWith(Rejoin(Lines(s)[k + 1..], LineBreaks(s)[k + 1..]), "\n")
  {
    LinesRejoin(s);
    LoneReturns(s);
  }

  /** How `Lines` and `LineBreaks` cut at the first break. */
  lemma LinesStep(s: string, i: nat)
    requires i == IndexOfFirst(s, {'\n', '\r'})
    ensures Lines(s) == [s[..i]] + Lines(s[i + BreakWidth(s, i)..])
    ensures LineBreaks(s) == [BreakAt(s, i)] + LineBreaks(s[i + BreakWidth(s, i)..])
    ensures s == s[..i] + BreakAt(s, i) + s[i + BreakWidth(s, i)..]
  {
    var b := BreakAt(s, i);
    assert s == s[..i] + s[i..i + BreakWidth(s, i)] + s[i + BreakWidth(s, i)..];
  }

  lemma {:induction false} LinesRejoin(s: string)
    ensures Rejoin(Lines(s), LineBreaks(s)) == s
    decreases |s|
  {
    var i := IndexOfFirst(s, {'\n', '\r'});
    if i >= 0 {
      var rest := s[i + BreakWidth(s, i)..];
      LinesStep(s, i);
      LinesRejoin(rest);
      var ls, bs := Lines(s), LineBreaks(s);
      assert ls[1..] == Lines(rest) && bs[1..] == LineBreaks(rest);
    }
  }

  lemma {:induction false} LoneReturns(s: string)
    ensures forall k :: 0 <= k < |LineBreaks(s)| && LineBreaks(s)[k] == "\r" ==>
              !StartsWith(Rejoin(Lines(s)[k + 1..], LineBreaks(s)[k + 1..]), "\n")
    decreases |s|
  {
    var i := IndexOfFirst(s, {'\n', '\r'});
    if i >= 0 {
      var rest := s[i + BreakWidth(s, i)..];
      LinesStep(s, i);
      LoneReturns(rest);
      var ls, bs := Lines(s), LineBreaks(s);
      forall k | 0 <= k < |bs| && bs[k] == "\r"
        ensures !StartsWith(Rejoin(ls[k + 1..], bs[k + 1..]), "\n")
      {
        if k == 0 {
          LoneReturnAt(s, i);
        } else {
          LinesShift(s, i, k);
        }
      }
    }
  }

  /** Line `k + 1` and break `k` of `s` are line `k` and break `k - 1` of the
      text after the first break. */
  lemma LinesShift(s: string, i: nat, k: nat)
    requires i == IndexOfFirst(s, {'\n', '\r'}) && i >= 0 && 0 < k < |LineBreaks(s)|
    ensures var rest := s[i + BreakWidth(s, i)..];
      && Lines(s)[k + 1..] == Lines(rest)[k..] && LineBreaks(s)[k + 1..] == LineBreaks(rest)[k..]
      && LineBreaks(s)[k] == LineBreaks(rest)[k - 1]
  {
    var rest := s[i + BreakWidth(s, i)..];
    LinesStep(s, i);
    TailShift(Lines(s), s[..i], Lines(rest), k);
    TailShift(LineBreaks(s), BreakAt(s, i), LineBreaks(rest), k);
  }

  lemma TailShift<T>(x: seq<T>, h: T, y: seq<T>, k: nat)
    requires x == [h] + y && k <= |y|
    ensures x[k + 1..] == y[k..] && (k > 0 ==> x[k] == y[k - 1])
  {
  }

  /** After a first break that is a lone "\r", the rest does not start with "\n". */
  lemma LoneReturnAt(s: string, i: nat)
    requires i == IndexOfFirst(s, {'\n', '\r'}) && i >= 0 && BreakAt(s, i) == "\r"
    ensures !StartsWith(Rejoin(Lines(s)[1..], LineBreaks(s)[1..]), "\n")
  {
    var rest := s[i + BreakWidth(s, i)..];
    LinesStep(s, i);
    TailShift(Lines(s), s[..i], Lines(rest), 0);
    TailShift(LineBreaks(s), BreakAt(s, i), LineBreaks(rest), 0);
    LinesRejoin(rest);
    assert BreakWidth(s, i) == 1;
  }
}
