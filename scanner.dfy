/** The signature scanner `getReturnTypePosition` (rule.js:103-114): the
    first match of the regular expression `/(function)?\s*\(\s*\)/` in the text
    of the factory function, written out by hand for this one pattern. */
module Scanner {
  import opened Wrappers

  /** The class `\s` of ECMAScript regular expressions: WhiteSpace and
      LineTerminator (ECMA-262, sections 12.2 and 12.3), the space separators
      of Unicode category Zs included. */
  predicate IsWhiteSpace(c: char)
    // none of the characters the pattern spells out is white space, which is
    // why greedy `\s*` never has to give a character back
    ensures IsWhiteSpace(c) ==> c != '(' && c != ')' && c != 'f'
  {
    || c == '\t' || c == '\U{000B}' || c == '\U{000C}' || c == ' ' || c == '\U{00A0}'
    || c == '\U{FEFF}' || c == '\U{1680}' || ('\U{2000}' <= c <= '\U{200A}')
    || c == '\U{202F}' || c == '\U{205F}' || c == '\U{3000}'
    || c == '\n' || c == '\r' || c == '\U{2028}' || c == '\U{2029}'
  }

  /** The text `function` starts at index `i`. */
  predicate KeywordAt(s: string, i: nat) {
    && i + 8 <= |s|
    && s[i] == 'f' && s[i + 1] == 'u' && s[i + 2] == 'n' && s[i + 3] == 'c'
    && s[i + 4] == 't' && s[i + 5] == 'i' && s[i + 6] == 'o' && s[i + 7] == 'n'
  }

  // ---------------------------------------------------------------------------
  // The language of the pattern, stated without any search: which spans
  // `s[i..e]` of a text the pattern matches in full

  ghost predicate WhiteSpaceBetween(s: string, i: nat, j: nat)
    requires i <= j <= |s|
  {
    forall k :: i <= k < j ==> IsWhiteSpace(s[k])
  }

  /** `s[i..e]` is matched in full by `\s*\(\s*\)`. */
  ghost predicate EmptyParamsSpan(s: string, i: nat, e: nat) {
    && i + 2 <= e <= |s| && s[e - 1] == ')'
    && exists p :: i <= p < e - 1 && s[p] == '(' && WhiteSpaceBetween(s, i, p) && WhiteSpaceBetween(s, p + 1, e - 1)
  }

  /** `s[i..e]` is matched in full by `(function)?\s*\(\s*\)`. */
  ghost predicate PatternSpan(s: string, i: nat, e: nat) {
    || EmptyParamsSpan(s, i, e)
    || (KeywordAt(s, i) && i + 8 <= e && EmptyParamsSpan(s, i + 8, e))
  }

  ghost predicate NoMatchAt(s: string, m: nat) {
    forall e :: m <= e <= |s| ==> !PatternSpan(s, m, e)
  }

  ghost predicate MatchesSomewhere(s: string) {
    exists m, e :: 0 <= m <= e <= |s| && PatternSpan(s, m, e)
  }

  /** `s[m..e]` is matched, and `e` is the only end a match starting at `m` can
      have (so the order in which the regular expression tries its
      alternatives cannot change what it matches at `m`). */
  ghost predicate OnlyMatchAt(s: string, m: nat, e: nat) {
    && m <= e <= |s| && PatternSpan(s, m, e)
    && (forall e' :: m <= e' <= |s| && PatternSpan(s, m, e') ==> e' == e)
  }

  /** `s[m..m + len]` is the match `String.prototype.match` reports: no match
      starts before `m`, and none starting at `m` ends elsewhere. */
  ghost predicate IsLeftmostMatch(s: string, m: nat, len: nat) {
    && OnlyMatchAt(s, m, m + len)
    && (forall m' :: 0 <= m' < m ==> NoMatchAt(s, m'))
  }

  // ---------------------------------------------------------------------------
  // The matcher

  /** Greedy `\s*` from index `i`. It never has to give characters back: what
      follows it in the pattern is `(` or `)`, neither of which is white space. */
  function SkipWhiteSpace(s: string, i: nat): (j: nat)
    requires i <= |s|
    ensures i <= j <= |s|
    ensures forall k :: i <= k < j ==> IsWhiteSpace(s[k])
    ensures j < |s| ==> !IsWhiteSpace(s[j])
    decreases |s| - i
  {
    if i < |s| && IsWhiteSpace(s[i]) then SkipWhiteSpace(s, i + 1) else i
  }

  /** `\s*\(\s*\)` anchored at `i`: the end of its match, if there is one. */
  function EmptyParamsAt(s: string, i: nat): (r: Option<nat>)
    requires i <= |s|
    ensures r.Some? ==> i + 2 <= r.value <= |s|
  {
    var j := SkipWhiteSpace(s, i);
    if j < |s| && s[j] == '(' then
      var k := SkipWhiteSpace(s, j + 1);
      if k < |s| && s[k] == ')' then Some(k + 1) else None
    else None
  }

  /** The whole pattern anchored at `i`: first with the optional group taking
      `function`, then with the group empty. */
  function MatchAt(s: string, i: nat): (r: Option<nat>)
    requires i <= |s|
    ensures r.Some? ==> i + 2 <= r.value <= |s|
  {
    var withKeyword := if KeywordAt(s, i) then EmptyParamsAt(s, i + 8) else None;
    if withKeyword.Some? then withKeyword else EmptyParamsAt(s, i)
  }

  /** Tries every start index from `from` on, leftmost first: the pair
      (start, end) of the first match. */
  function FirstMatch(s: string, from: nat): (r: Option<(nat, nat)>)
    requires from <= |s|
    ensures r.Some? ==> from <= r.value.0 && r.value.0 + 2 <= r.value.1 <= |s|
    decreases |s| - from
  {
    match MatchAt(s, from)
    case Some(e) => Some((from, e))
    case None => if from == |s| then None else FirstMatch(s, from + 1)
  }

  /** `getReturnTypePosition`: the LENGTH of the first match, or -1 when there
      is none (`ReturnTypePositionIsLeftmostMatch` says which match). The
      length is the offset just past `)` only when the match starts at index 0
      (`PositionIsEndOffsetIffAnchored`). */
  function ReturnTypePosition(functionString: string): (r: int)
    ensures r == -1 || 2 <= r <= |functionString|
  {
    match FirstMatch(functionString, 0)
    case Some((m, e)) => e - m
    case None => -1
  }

  // ---------------------------------------------------------------------------
  // The matcher decides the language

  lemma SkipWhiteSpaceStopsAt(s: string, i: nat, q: nat)
    requires i <= q < |s| && !IsWhiteSpace(s[q])
    requires forall k :: i <= k < q ==> IsWhiteSpace(s[k])
    ensures SkipWhiteSpace(s, i) == q
  {
  }

  lemma EmptyParamsAtSound(s: string, i: nat, e: nat)
    requires i <= e <= |s| && EmptyParamsAt(s, i) == Some(e)
    ensures EmptyParamsSpan(s, i, e)
  {
    var j := SkipWhiteSpace(s, i);
    assert s[j] == '(' && WhiteSpaceBetween(s, i, j) && WhiteSpaceBetween(s, j + 1, e - 1);
  }

  lemma EmptyParamsAtWitness(s: string, i: nat, p: nat, e: nat)
    requires i <= p < e - 1 && e <= |s| && s[p] == '(' && s[e - 1] == ')'
    requires WhiteSpaceBetween(s, i, p) && WhiteSpaceBetween(s, p + 1, e - 1)
    ensures EmptyParamsAt(s, i) == Some(e)
  {
    SkipWhiteSpaceStopsAt(s, i, p);
    SkipWhiteSpaceStopsAt(s, p + 1, e - 1);
  }

  lemma EmptyParamsAtComplete(s: string, i: nat, e: nat)
    requires EmptyParamsSpan(s, i, e)
    ensures EmptyParamsAt(s, i) == Some(e)
  {
    var p :| i <= p < e - 1 && s[p] == '(' && WhiteSpaceBetween(s, i, p) && WhiteSpaceBetween(s, p + 1, e - 1);
    EmptyParamsAtWitness(s, i, p, e);
  }

  lemma EmptyParamsAtExact(s: string, i: nat, e: nat)
    requires i <= e <= |s|
    ensures EmptyParamsAt(s, i) == Some(e) <==> EmptyParamsSpan(s, i, e)
  {
    if EmptyParamsAt(s, i) == Some(e) { EmptyParamsAtSound(s, i, e); }
    if EmptyParamsSpan(s, i, e) { EmptyParamsAtComplete(s, i, e); }
  }

  /** A match of `\s*\(\s*\)` starts with `(` or white space. */
  lemma EmptyParamsStart(s: string, i: nat, e: nat)
    requires EmptyParamsSpan(s, i, e)
    ensures s[i] == '(' || IsWhiteSpace(s[i])
  {
    var p :| i <= p < e - 1 && s[p] == '(' && WhiteSpaceBetween(s, i, p) && WhiteSpaceBetween(s, p + 1, e - 1);
  }

  lemma MatchAtExact(s: string, i: nat, e: nat)
    requires i <= e <= |s|
    ensures MatchAt(s, i) == Some(e) <==> PatternSpan(s, i, e)
  {
    var n := 8;
    if KeywordAt(s, i) {
      // `function` and the bare alternative cannot both match at `i`
      assert SkipWhiteSpace(s, i) == i;
      assert EmptyParamsAt(s, i) == None;
      if EmptyParamsSpan(s, i, e) { EmptyParamsStart(s, i, e); }
      if e >= i + n {
        EmptyParamsAtExact(s, i + n, e);
      }
    } else {
      EmptyParamsAtExact(s, i, e);
    }
  }

  lemma NoneMeansNoMatchAt(s: string, m: nat)
    requires m <= |s| && MatchAt(s, m) == None
    ensures NoMatchAt(s, m)
  {
    forall e | m <= e <= |s| ensures !PatternSpan(s, m, e) {
      MatchAtExact(s, m, e);
    }
  }

  lemma MatchAtIsOnlyMatch(s: string, m: nat, e: nat)
    requires m <= |s| && MatchAt(s, m) == Some(e)
    ensures OnlyMatchAt(s, m, e)
  {
    MatchAtExact(s, m, e);
    forall e' | m <= e' <= |s| && PatternSpan(s, m, e') ensures e' == e {
      MatchAtExact(s, m, e');
    }
  }

  /** When the search finds nothing, the matcher fails at every index from
      `from` on. */
  lemma {:induction false} FirstMatchNone(s: string, from: nat)
    requires from <= |s| && FirstMatch(s, from).None?
    ensures forall m :: from <= m <= |s| ==> MatchAt(s, m) == None
    decreases |s| - from
  {
    if from < |s| {
      FirstMatchNone(s, from + 1);
    }
  }

  /** What the search finds is where the matcher first succeeds from `from`
      on, with the end the matcher gives there. */
  lemma {:induction false} FirstMatchSome(s: string, from: nat, m: nat, e: nat)
    requires from <= |s| && FirstMatch(s, from) == Some((m, e))
    ensures forall k :: from <= k < m ==> MatchAt(s, k) == None
    ensures MatchAt(s, m) == Some(e)
    decreases |s| - from
  {
    if MatchAt(s, from).None? {
      FirstMatchSome(s, from + 1, m, e);
    }
  }

  lemma NoMatchBefore(s: string, m: nat)
    requires m <= |s|
    requires forall m' :: 0 <= m' < m ==> MatchAt(s, m') == None
    ensures forall m' :: 0 <= m' < m ==> NoMatchAt(s, m')
  {
    forall m' | 0 <= m' < m ensures NoMatchAt(s, m') {
      NoneMeansNoMatchAt(s, m');
    }
  }

  lemma SearchFindsLeftmost(s: string, m: nat, e: nat)
    requires FirstMatch(s, 0) == Some((m, e))
    ensures m <= e && IsLeftmostMatch(s, m, e - m)
  {
    FirstMatchSome(s, 0, m, e);
    MatchAtIsOnlyMatch(s, m, e);
    NoMatchBefore(s, m);
  }

  lemma SearchFailsEverywhere(s: string)
    requires FirstMatch(s, 0) == None
    ensures !MatchesSomewhere(s)
  {
    FirstMatchNone(s, 0);
    forall m, e | 0 <= m <= e <= |s| ensures !PatternSpan(s, m, e) {
      NoneMeansNoMatchAt(s, m);
    }
  }

  /** -1 exactly when no part of the text matches the pattern; otherwise the
      length of the match `String.prototype.match` reports. */
  lemma ReturnTypePositionIsLeftmostMatch(functionString: string)
    ensures ReturnTypePosition(functionString) == -1 <==> !MatchesSomewhere(functionString)
    ensures ReturnTypePosition(functionString) != -1 ==>
      exists m :: IsLeftmostMatch(functionString, m, ReturnTypePosition(functionString))
  {
    var s := functionString;
    match FirstMatch(s, 0)
    case Some((m, e)) =>
      SearchFindsLeftmost(s, m, e);
    case None =>
      SearchFailsEverywhere(s);
  }

  /** The value is a match length, not a position: it is the end of a match
      starting at index 0 exactly when the leftmost match starts there. */
  lemma PositionIsEndOffsetIffAnchored(s: string, m: nat)
    requires ReturnTypePosition(s) != -1 && IsLeftmostMatch(s, m, ReturnTypePosition(s))
    ensures s[m + ReturnTypePosition(s) - 1] == ')'
    ensures PatternSpan(s, 0, ReturnTypePosition(s)) <==> m == 0
  {
    if m > 0 {
      assert NoMatchAt(s, 0);
    }
  }
}
