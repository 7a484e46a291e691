/**
 * The pieces of Go's standard library that the scraper's string logic is built
 * from: `unicode.IsSpace`, `strings.TrimSpace`, `strings.Fields`, `strings.Join`,
 * `strings.Index`, `strings.Split` and `strconv.Itoa`, over strings of characters.
 */
module GoStrings {

  /** Go's `unicode.IsSpace`: the Latin-1 spaces and the Unicode White_Space set. */
  predicate IsSpace(c: char) {
    c == ' ' || c == '\t' || c == '\n' || c == '\r' || c == '\U{000B}' || c == '\U{000C}'
    || c == '\U{0085}' || c == '\U{00A0}' || c == '\U{1680}'
    || ('\U{2000}' <= c <= '\U{200A}')
    || c == '\U{2028}' || c == '\U{2029}' || c == '\U{202F}' || c == '\U{205F}' || c == '\U{3000}'
  }

  /** A field of `strings.Fields`: non-empty and free of whitespace. */
  predicate IsWord(w: string) {
    |w| > 0 && forall i :: 0 <= i < |w| ==> !IsSpace(w[i])
  }

  predicate AllSpace(s: string) {
    forall i :: 0 <= i < |s| ==> IsSpace(s[i])
  }

  /** Drops the leading whitespace of `s`. */
  function TrimLeft(s: string): (r: string)
    ensures |r| <= |s| && r == s[|s| - |r|..]
    ensures r == [] || !IsSpace(r[0])
    ensures AllSpace(s[..|s| - |r|])
  {
    if s != [] && IsSpace(s[0]) then
      var r := TrimLeft(s[1..]);
      TrimLeftStep(s, r);
      r
    else s
  }

  lemma TrimLeftStep(s: string, r: string)
    requires s != [] && IsSpace(s[0])
    requires |r| <= |s| - 1 && r == s[1..][|s| - 1 - |r|..]
    requires AllSpace(s[1..][..|s| - 1 - |r|])
    ensures r == s[|s| - |r|..]
    ensures AllSpace(s[..|s| - |r|])
  {
    var d := |s| - |r|;
    assert s[1..][d - 1..] == s[d..];
    forall i | 0 <= i < d ensures IsSpace(s[..d][i]) {
      if i > 0 {
        assert s[..d][i] == s[1..][..d - 1][i - 1];
      }
    }
  }

  /** Drops the trailing whitespace of `s`. */
  function TrimRight(s: string): (r: string)
    ensures |r| <= |s| && r == s[..|r|]
    ensures r == [] || !IsSpace(r[|r| - 1])
    ensures AllSpace(s[|r|..])
  {
    if s != [] && IsSpace(s[|s| - 1]) then
      var r := TrimRight(s[..|s| - 1]);
      TrimRightStep(s, r);
      r
    else s
  }

  lemma TrimRightStep(s: string, r: string)
    requires s != [] && IsSpace(s[|s| - 1])
    requires |r| <= |s| - 1 && r == s[..|s| - 1][..|r|]
    requires AllSpace(s[..|s| - 1][|r|..])
    ensures r == s[..|r|]
    ensures AllSpace(s[|r|..])
  {
    forall i | 0 <= i < |s| - |r| ensures IsSpace(s[|r|..][i]) {
      if i < |s| - 1 - |r| {
        assert s[|r|..][i] == s[..|s| - 1][|r|..][i];
      }
    }
  }

  /** Go's `strings.TrimSpace`. */
  function TrimSpace(s: string): string {
    TrimRight(TrimLeft(s))
  }

  /** The length of the longest whitespace-free prefix of `s`. */
  function WordLength(s: string): (n: nat)
    ensures n <= |s|
    ensures forall i :: 0 <= i < n ==> !IsSpace(s[i])
    ensures n == |s| || IsSpace(s[n])
  {
    if s == [] || IsSpace(s[0]) then 0 else 1 + WordLength(s[1..])
  }

  /** Go's `strings.Fields`: the maximal runs of non-whitespace characters of `s`, in order. */
  function Fields(s: string): (r: seq<string>)
    ensures forall k :: 0 <= k < |r| ==> IsWord(r[k])
    decreases |s|
  {
    if s == [] then []
    else if IsSpace(s[0]) then Fields(s[1..])
    else
      var n := WordLength(s);
      [s[..n]] + Fields(s[n..])
  }

  /** Go's `strings.Join`. */
  function Join(ws: seq<string>, sep: string): string {
    if |ws| == 0 then ""
    else if |ws| == 1 then ws[0]
    else ws[0] + sep + Join(ws[1..], sep)
  }

  /** Single-spaced text: no leading or trailing whitespace, no whitespace other
      than ' ', and never two spaces in a row. */
  predicate SingleSpaced(s: string) {
    && (s == [] || (!IsSpace(s[0]) && !IsSpace(s[|s| - 1])))
    && (forall i :: 0 <= i < |s| && IsSpace(s[i]) ==> s[i] == ' ')
    && !Contains(s, "  ")
  }

  lemma DoubleSpaceAt(s: string, i: int)
    requires 0 <= i < |s| - 1
    ensures OccursAt(s, "  ", i) <==> s[i] == ' ' && s[i + 1] == ' '
  {
    assert OccursAt(s, "  ", i) ==> s[i] == s[i..i + 2][0] && s[i + 1] == s[i..i + 2][1];
    if s[i] == ' ' && s[i + 1] == ' ' { assert s[i..i + 2] == "  "; }
  }

  /** An occurrence in a suffix is an occurrence in the whole string. */
  lemma OccursInSuffix(s: string, sep: string, d: int, i: int)
    requires 0 <= d <= |s| && 0 <= i
    ensures OccursAt(s[d..], sep, i) <==> OccursAt(s, sep, d + i)
  {
    if d + i + |sep| <= |s| {
      assert s[d..][i..i + |sep|] == s[d + i..d + i + |sep|];
    }
  }

  /** A whitespace-free prefix followed by whitespace or nothing is exactly the first word. */
  lemma WordLengthAt(w: string, rest: string)
    requires forall i :: 0 <= i < |w| ==> !IsSpace(w[i])
    requires rest == [] || IsSpace(rest[0])
    ensures WordLength(w + rest) == |w|
  {
    var s := w + rest;
    assert forall i :: 0 <= i < |w| ==> s[i] == w[i];
    assert |w| < |s| ==> s[|w|] == rest[0];
  }

  /** A word followed by whitespace or nothing is the first field. */
  lemma FieldsWordThen(w: string, rest: string)
    requires IsWord(w)
    requires rest == [] || IsSpace(rest[0])
    ensures Fields(w + rest) == [w] + Fields(rest)
  {
    var s := w + rest;
    assert s[0] == w[0];
    WordLengthAt(w, rest);
    assert s[..|w|] == w;
    assert s[|w|..] == rest;
  }

  lemma FieldsSkipSpace(c: char, s: string)
    requires IsSpace(c)
    ensures Fields([c] + s) == Fields(s)
  {
    assert ([c] + s)[1..] == s;
  }

  /** A single word is its own only field. */
  lemma FieldsOfWord(w: string)
    requires IsWord(w)
    ensures Fields(w) == [w]
  {
    FieldsWordThen(w, []);
    assert w + [] == w;
  }

  /** A whitespace character separates fields: the fields of `a`, then those of `b`.
      With FieldsOfWord and FieldsEmpty this determines `Fields` on every string. */
  lemma {:induction false} FieldsSplitAtSpace(a: string, c: char, b: string)
    requires IsSpace(c)
    ensures Fields(a + [c] + b) == Fields(a) + Fields(b)
    decreases |a|
  {
    if a == [] {
      Regroup(a, 0, c, b);
      FieldsSkipSpace(c, b);
    } else if IsSpace(a[0]) {
      FieldsSplitAtSpace(a[1..], c, b);
      FieldsSplitLeadingSpace(a, c, b);
    } else {
      var n := WordLength(a);
      if n < |a| {
        FieldsSplitAtSpace(a[n..], c, b);
      }
      FieldsSplitLeadingWord(a, n, c, b);
    }
  }

  /** The step of FieldsSplitAtSpace past a leading whitespace character of `a`. */
  lemma FieldsSplitLeadingSpace(a: string, c: char, b: string)
    requires a != [] && IsSpace(a[0])
    requires Fields(a[1..] + [c] + b) == Fields(a[1..]) + Fields(b)
    ensures Fields(a + [c] + b) == Fields(a) + Fields(b)
  {
    Regroup(a, 1, c, b);
    FieldsSkipSpace(a[0], a[1..] + [c] + b);
    FieldsSkipSpace(a[0], a[1..]);
  }

  /** The step of FieldsSplitAtSpace past the first word of `a`. */
  lemma FieldsSplitLeadingWord(a: string, n: nat, c: char, b: string)
    requires a != [] && !IsSpace(a[0]) && IsSpace(c) && n == WordLength(a)
    requires n < |a| ==> Fields(a[n..] + [c] + b) == Fields(a[n..]) + Fields(b)
    ensures Fields(a + [c] + b) == Fields(a) + Fields(b)
  {
    var w, rest := a[..n], a[n..];
    assert IsWord(w) by { assert n > 0; }
    Regroup(a, n, c, b);
    if n < |a| {
      FieldsWordThen(w, rest + [c] + b);
      FieldsWordThen(w, rest);
    } else {
      FieldsWordThen(w, [c] + b);
      FieldsSkipSpace(c, b);
      FieldsOfWord(w);
    }
  }

  /** `a + [c] + b` regrouped after the first `n` elements of `a`. */
  lemma Regroup<T>(a: seq<T>, n: nat, c: T, b: seq<T>)
    requires n <= |a|
    ensures a == a[..n] + a[n..]
    ensures a + [c] + b == a[..n] + (a[n..] + [c] + b)
    ensures n == |a| ==> a[n..] + [c] + b == [c] + b
  {
  }

  /** `Fields` is empty exactly for all-whitespace text. */
  lemma {:induction false} FieldsEmpty(s: string)
    ensures Fields(s) == [] <==> AllSpace(s)
    decreases |s|
  {
    if s != [] && IsSpace(s[0]) {
      FieldsEmpty(s[1..]);
      assert AllSpace(s) <==> AllSpace(s[1..]) by {
        assert forall i :: 0 <= i < |s| - 1 ==> s[1..][i] == s[i + 1];
      }
    }
  }

  /** `Fields` ignores leading whitespace. */
  lemma {:induction false} FieldsTrimLeft(s: string)
    ensures Fields(TrimLeft(s)) == Fields(s)
    decreases |s|
  {
    if s != [] && IsSpace(s[0]) {
      FieldsTrimLeft(s[1..]);
    }
  }

  /** `Fields` produces no field for trailing whitespace. */
  lemma {:induction false} FieldsAppendSpaces(s: string, sp: string)
    requires AllSpace(sp)
    ensures Fields(s + sp) == Fields(s)
    decreases |s|
  {
    if s == [] {
      assert s + sp == sp;
      FieldsEmpty(sp);
    } else if IsSpace(s[0]) {
      assert s + sp == [s[0]] + (s[1..] + sp);
      FieldsSkipSpace(s[0], s[1..] + sp);
      assert s == [s[0]] + s[1..];
      FieldsSkipSpace(s[0], s[1..]);
      FieldsAppendSpaces(s[1..], sp);
    } else {
      var n := WordLength(s);
      var w, rest := s[..n], s[n..];
      assert IsWord(w) by { assert n > 0; }
      assert s == w + rest;
      assert s + sp == w + (rest + sp);
      FieldsWordThen(w, rest);
      FieldsWordThen(w, rest + sp);
      FieldsAppendSpaces(rest, sp);
    }
  }

  lemma PrefixThenRest<T>(s: seq<T>, n: nat)
    requires n <= |s|
    ensures s == s[..n] + s[n..]
  {
  }

  /** `strings.Fields` ignores the whitespace that `strings.TrimSpace` removes. */
  lemma FieldsTrimSpace(s: string)
    ensures Fields(TrimSpace(s)) == Fields(s)
  {
    var u := TrimLeft(s);
    var v := TrimRight(u);
    PrefixThenRest(u, |v|);
    FieldsAppendSpaces(v, u[|v|..]);
    FieldsTrimLeft(s);
  }

  /** Splitting words joined by single spaces gives the words back. */
  lemma {:induction false} FieldsOfJoin(ws: seq<string>)
    requires forall k :: 0 <= k < |ws| ==> IsWord(ws[k])
    ensures Fields(Join(ws, " ")) == ws
  {
    if |ws| == 1 {
      FieldsWordThen(ws[0], []);
      assert ws[0] + [] == ws[0];
    } else if |ws| > 1 {
      var w, rest := ws[0], ws[1..];
      var j := Join(rest, " ");
      calc {
        Fields(Join(ws, " "));
        { JoinSpaceCons(ws); }
        Fields(w + ([' '] + j));
        { FieldsWordThen(w, [' '] + j); }
        [w] + Fields([' '] + j);
        { FieldsSkipSpace(' ', j); }
        [w] + Fields(j);
        { FieldsOfJoin(rest); }
        [w] + rest;
      }
    }
  }

  lemma JoinSpaceCons(ws: seq<string>)
    requires |ws| > 1
    ensures Join(ws, " ") == ws[0] + ([' '] + Join(ws[1..], " "))
  {
  }

  lemma JoinWordsStart(ws: seq<string>)
    requires |ws| > 0 && IsWord(ws[0])
    ensures |Join(ws, " ")| > 0 && Join(ws, " ")[0] == ws[0][0]
  {
  }

  /** Words joined by single spaces are single-spaced text. */
  lemma {:induction false} JoinWordsSingleSpaced(ws: seq<string>)
    requires forall k :: 0 <= k < |ws| ==> IsWord(ws[k])
    ensures SingleSpaced(Join(ws, " "))
  {
    if |ws| == 1 {
      WordSingleSpaced(ws[0]);
    } else if |ws| > 1 {
      JoinWordsSingleSpaced(ws[1..]);
      JoinWordsStart(ws[1..]);
      WordSingleSpaced(ws[0]);
      SingleSpacedConcat(ws[0], Join(ws[1..], " "));
    }
  }

  /** A word is single-spaced text. */
  lemma WordSingleSpaced(w: string)
    requires IsWord(w)
    ensures SingleSpaced(w)
  {
    forall i | 0 <= i <= |w| ensures !OccursAt(w, "  ", i) {
      if OccursAt(w, "  ", i) { DoubleSpaceAt(w, i); }
    }
  }

  /** Two non-empty single-spaced texts joined by one space are single-spaced. */
  lemma SingleSpacedConcat(a: string, b: string)
    requires SingleSpaced(a) && SingleSpaced(b) && a != [] && b != []
    ensures SingleSpaced(a + " " + b)
  {
    var s := a + " " + b;
    assert forall i :: 0 <= i < |a| ==> s[i] == a[i];
    assert s[|a|] == ' ';
    assert forall i :: 0 <= i < |b| ==> s[|a| + 1 + i] == b[i];
    assert s[|a| + 1..] == b;
    forall i | 0 <= i < |s| && IsSpace(s[i]) ensures s[i] == ' ' {
      if i > |a| { assert s[i] == b[i - |a| - 1]; }
    }
    forall i | 0 <= i <= |s| ensures !OccursAt(s, "  ", i) {
      if i > |a| {
        OccursInSuffix(s, "  ", |a| + 1, i - |a| - 1);
      } else if i < |a| - 1 {
        DoubleSpaceAt(s, i);
        DoubleSpaceAt(a, i);
      } else if i < |s| - 1 {
        DoubleSpaceAt(s, i);
      }
    }
  }

  /** In single-spaced text, a word that does not reach the end is followed by
      one space and then more single-spaced text that starts with a non-space. */
  lemma SingleSpacedAfterWord(r: string, n: nat)
    requires SingleSpaced(r) && 0 < n < |r| && IsSpace(r[n])
    ensures n < |r| - 1 && r[n] == ' ' && !IsSpace(r[n + 1])
    ensures SingleSpaced(r[n + 1..])
  {
    DoubleSpaceAt(r, n);
    var r' := r[n + 1..];
    forall i | 0 <= i < |r'| && IsSpace(r'[i]) ensures r'[i] == ' ' {
      assert r'[i] == r[n + 1 + i];
    }
    forall i | 0 <= i <= |r'| ensures !OccursAt(r', "  ", i) {
      if OccursAt(r', "  ", i) { OccursInSuffix(r, "  ", n + 1, i); }
    }
  }

  /** Single-spaced text is the single-space join of its own fields. */
  lemma {:induction false} JoinFieldsOfSingleSpaced(r: string)
    requires SingleSpaced(r)
    ensures Join(Fields(r), " ") == r
    decreases |r|
  {
    if r != [] {
      var n := WordLength(r);
      assert IsWord(r[..n]) by { assert n > 0; }
      if n == |r| {
        assert r == r[..n] + [];
        FieldsWordThen(r[..n], []);
      } else {
        SingleSpacedAfterWord(r, n);
        JoinFieldsOfSingleSpaced(r[n + 1..]);
        JoinFieldsStep(r, n);
      }
    }
  }

  lemma SpaceSplit(r: string, n: nat)
    requires n < |r| && r[n] == ' '
    ensures r == r[..n] + ([' '] + r[n + 1..]) == r[..n] + " " + r[n + 1..]
  {
  }

  /** The inductive step of JoinFieldsOfSingleSpaced: first word, one space, rest. */
  lemma JoinFieldsStep(r: string, n: nat)
    requires 0 < n < |r| - 1 && IsWord(r[..n]) && r[n] == ' ' && !IsSpace(r[n + 1])
    requires Join(Fields(r[n + 1..]), " ") == r[n + 1..]
    ensures Join(Fields(r), " ") == r
  {
    var w, r' := r[..n], r[n + 1..];
    SpaceSplit(r, n);
    calc {
      Join(Fields(r), " ");
      { FieldsWordThen(w, [' '] + r'); }
      Join([w] + Fields([' '] + r'), " ");
      { FieldsSkipSpace(' ', r'); }
      Join([w] + Fields(r'), " ");
      { FieldsEmpty(r'); JoinCons(w, Fields(r'), " "); }
      w + " " + r';
    }
  }

  /** `sep` occurs in `s` starting at index `k`. */
  predicate OccursAt(s: string, sep: string, k: int) {
    0 <= k && k + |sep| <= |s| && s[k..k + |sep|] == sep
  }

  /** Go's `strings.HasPrefix`. */
  predicate HasPrefix(s: string, prefix: string) {
    |prefix| <= |s| && s[..|prefix|] == prefix
  }

  /** Go's `strings.Contains`. */
  predicate Contains(s: string, sep: string) {
    exists k :: 0 <= k <= |s| && OccursAt(s, sep, k)
  }

  /** Go's `strings.Index`: the first occurrence of `sep` in `s`, or -1
      (IndexSpec states which occurrence it is). */
  function Index(s: string, sep: string): (i: int)
    ensures -1 <= i <= |s|
    ensures i >= 0 ==> i + |sep| <= |s|
    decreases |s|
  {
    if |sep| <= |s| && s[..|sep|] == sep then 0
    else if s == [] then -1
    else
      var j := Index(s[1..], sep);
      if j < 0 then -1 else j + 1
  }

  /** `Index` is -1 exactly when `sep` does not occur, and otherwise the first
      position where it occurs. */
  lemma {:induction false} IndexSpec(s: string, sep: string)
    ensures Index(s, sep) == -1 <==> !Contains(s, sep)
    ensures Index(s, sep) >= 0 ==> OccursAt(s, sep, Index(s, sep))
    ensures forall k :: 0 <= k < Index(s, sep) ==> !OccursAt(s, sep, k)
    decreases |s|
  {
    if |sep| <= |s| && s[..|sep|] == sep {
      assert OccursAt(s, sep, 0);
    } else if s != [] {
      IndexSpec(s[1..], sep);
      IndexStep(s, sep, Index(s[1..], sep));
    }
  }

  lemma OccursShift(s: string, sep: string, k: int)
    requires s != [] && k >= 0
    ensures OccursAt(s[1..], sep, k) <==> OccursAt(s, sep, k + 1)
  {
    if 0 <= k && k + 1 + |sep| <= |s| {
      assert s[1..][k..k + |sep|] == s[k + 1..k + 1 + |sep|];
    }
  }

  /** The first occurrence in `s` is one past the first occurrence in `s[1..]`
      when `sep` does not start `s`. */
  lemma IndexStep(s: string, sep: string, j: int)
    requires s != [] && !OccursAt(s, sep, 0)
    requires -1 <= j <= |s| - 1
    requires j == -1 <==> !Contains(s[1..], sep)
    requires j >= 0 ==> OccursAt(s[1..], sep, j)
    requires forall k :: 0 <= k < j ==> !OccursAt(s[1..], sep, k)
    ensures var i := if j < 0 then -1 else j + 1;
      && (i == -1 <==> !Contains(s, sep))
      && (i >= 0 ==> OccursAt(s, sep, i))
      && (forall k :: 0 <= k < i ==> !OccursAt(s, sep, k))
  {
    if j >= 0 {
      OccursShift(s, sep, j);
      assert Contains(s, sep) by { assert OccursAt(s, sep, j + 1); }
      forall k | 0 <= k < j + 1 ensures !OccursAt(s, sep, k) {
        if k > 0 { OccursShift(s, sep, k - 1); }
      }
    } else {
      forall k | 0 <= k <= |s| ensures !OccursAt(s, sep, k) {
        if k > 0 { OccursShift(s, sep, k - 1); }
      }
    }
  }

  /** Go's `strings.Split` for a non-empty separator: the text between the
      non-overlapping occurrences of `sep`, scanning from the left. */
  function Split(s: string, sep: string): (r: seq<string>)
    requires |sep| > 0
    ensures |r| >= 1
    decreases |s|
  {
    var i := Index(s, sep);
    if i < 0 then [s] else [s[..i]] + Split(s[i + |sep|..], sep)
  }

  lemma JoinCons(w: string, ws: seq<string>, sep: string)
    requires ws != []
    ensures Join([w] + ws, sep) == w + sep + Join(ws, sep)
  {
    assert ([w] + ws)[1..] == ws;
  }

  /** Joining the pieces of a split with the separator gives back the string. */
  lemma {:induction false} SplitJoin(s: string, sep: string)
    requires |sep| > 0
    ensures Join(Split(s, sep), sep) == s
    decreases |s|
  {
    var i := Index(s, sep);
    if i >= 0 {
      var rest := s[i + |sep|..];
      SplitAt(s, sep);
      SplitJoin(rest, sep);
      JoinCons(s[..i], Split(rest, sep), sep);
      IndexSpec(s, sep);
      AroundOccurrence(s, sep, i);
    }
  }

  /** One step of `Split` past the first occurrence. */
  lemma SplitAt(s: string, sep: string)
    requires |sep| > 0 && Index(s, sep) >= 0
    ensures Split(s, sep) == [s[..Index(s, sep)]] + Split(s[Index(s, sep) + |sep|..], sep)
  {
  }

  /** The text around an occurrence, with the occurrence, is the whole text. */
  lemma AroundOccurrence(s: string, sep: string, i: int)
    requires OccursAt(s, sep, i)
    ensures s == s[..i] + sep + s[i + |sep|..]
  {
    assert s == s[..i] + s[i..i + |sep|] + s[i + |sep|..];
  }

  /** No piece of a split contains the separator. */
  lemma {:induction false} SplitPiecesFree(s: string, sep: string)
    requires |sep| > 0
    ensures forall k :: 0 <= k < |Split(s, sep)| ==> !Contains(Split(s, sep)[k], sep)
    decreases |s|
  {
    var i := Index(s, sep);
    IndexSpec(s, sep);
    if i >= 0 {
      var rest := s[i + |sep|..];
      SplitPiecesFree(rest, sep);
      PrefixBeforeFirstFree(s, sep, i);
      SplitAt(s, sep);
    }
  }

  /** The text before the first occurrence contains no occurrence. */
  lemma PrefixBeforeFirstFree(s: string, sep: string, i: int)
    requires |sep| > 0 && 0 <= i <= |s|
    requires forall k :: 0 <= k < i ==> !OccursAt(s, sep, k)
    ensures !Contains(s[..i], sep)
  {
    forall k | 0 <= k <= i && OccursAt(s[..i], sep, k) ensures false {
      assert s[..i][k..k + |sep|] == s[k..k + |sep|];
      assert OccursAt(s, sep, k);
    }
  }

  /** The first piece of a split: all of `s` when `sep` is absent, otherwise
      the text before its first occurrence. */
  lemma SplitFirst(s: string, sep: string)
    requires |sep| > 0
    ensures Index(s, sep) < 0 ==> Split(s, sep) == [s]
    ensures Index(s, sep) >= 0 ==> Split(s, sep)[0] == s[..Index(s, sep)]
  {
  }

  /** A split has a second piece exactly when `sep` occurs; that piece is the text
      after the first occurrence, up to the next occurrence or the end. */
  lemma SplitSecond(s: string, sep: string)
    requires |sep| > 0
    ensures |Split(s, sep)| >= 2 <==> Contains(s, sep)
    ensures Contains(s, sep) ==> Split(s, sep)[1] == Split(s[Index(s, sep) + |sep|..], sep)[0]
  {
    IndexSpec(s, sep);
    if Index(s, sep) >= 0 {
      SplitAt(s, sep);
    }
  }

  // ---------------------------------------------------------------------------
  // Decimal text (`strconv.Itoa` on natural numbers)

  predicate IsDigit(c: char) {
    '0' <= c <= '9'
  }

  /** A canonical decimal numeral: digits only, non-empty, no leading zero except "0" itself. */
  predicate IsDecimal(s: string) {
    |s| > 0 && (forall i :: 0 <= i < |s| ==> IsDigit(s[i])) && (s[0] == '0' ==> |s| == 1)
  }

  function DigitChar(d: nat): char
    requires d < 10
  {
    (d + '0' as int) as char
  }

  function DigitValue(c: char): nat
    requires IsDigit(c)
  {
    c as int - '0' as int
  }

  /** The value of a string of digits, read most significant first. */
  function DecimalValue(s: string): nat
    requires forall i :: 0 <= i < |s| ==> IsDigit(s[i])
  {
    if s == [] then 0
    else DecimalValue(s[..|s| - 1]) * 10 + DigitValue(s[|s| - 1])
  }

  /** Go's `strconv.Itoa` for a non-negative argument. */
  function Itoa(n: nat): (s: string)
    ensures IsDecimal(s)
  {
    if n < 10 then [DigitChar(n)] else Itoa(n / 10) + [DigitChar(n % 10)]
  }

  /** Reading back the decimal text of `n` gives `n`. */
  lemma {:induction false} ItoaRoundTrip(n: nat)
    ensures DecimalValue(Itoa(n)) == n
  {
    if n >= 10 {
      ItoaRoundTrip(n / 10);
      var s := Itoa(n);
      assert s[..|s| - 1] == Itoa(n / 10);
    }
  }

  lemma ItoaInjective(m: nat, n: nat)
    requires Itoa(m) == Itoa(n)
    ensures m == n
  {
    ItoaRoundTrip(m);
    ItoaRoundTrip(n);
  }
}
