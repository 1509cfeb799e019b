/** The cases of the rule's test suite (tests.js:13-64), with the syntax trees
    a TypeScript parser gives for them written out, and what the rule does on
    each. Offsets are character indices into the source text. */
module TestVectors {
  import opened Wrappers
  import opened Ast
  import opened Fixer
  import Scanner
  import opened Rule

  // ---------------------------------------------------------------------------
  // The scanner on the factory texts of the suite

  // The factory text is a parameter equal to the literal rather than the
  // literal itself: with a literal argument the solver unrolls the recursive
  // search at every index without bound and runs out of resources.

  lemma ScanArrow(s: string)
    requires s == "() => true"
    ensures Scanner.ReturnTypePosition(s) == 2
  {
  }

  lemma ScanFunction(s: string)
    requires s == "function() { return true; }"
    ensures Scanner.ReturnTypePosition(s) == 10
  {
    assert Scanner.MatchAt(s, 0) == Some(10) by {
      assert Scanner.KeywordAt(s, 0);
      assert Scanner.EmptyParamsAt(s, 8) == Some(10) by {
        assert Scanner.SkipWhiteSpace(s, 8) == 8;
        assert Scanner.SkipWhiteSpace(s, 9) == 9;
      }
    }
  }

  /** The value is the length of the match, not its end: the match `" ()"` of
      `async () => x` starts at 5, so the offset 3 falls inside `async`. */
  lemma ScanAsyncArrow(s: string)
    requires s == "async () => x"
    ensures Scanner.ReturnTypePosition(s) == 3
  {
    forall m | 0 <= m < 5
      ensures Scanner.MatchAt(s, m) == None
    {
      assert Scanner.SkipWhiteSpace(s, m) == m;
    }
    assert Scanner.SkipWhiteSpace(s, 5) == 6;
    assert Scanner.SkipWhiteSpace(s, 7) == 7;
    assert Scanner.MatchAt(s, 5) == Some(8);
    assert Scanner.FirstMatch(s, 5) == Some((5, 8));
    assert Scanner.FirstMatch(s, 4) == Some((5, 8));
    assert Scanner.FirstMatch(s, 3) == Some((5, 8));
    assert Scanner.FirstMatch(s, 2) == Some((5, 8));
    assert Scanner.FirstMatch(s, 1) == Some((5, 8));
  }

  // ---------------------------------------------------------------------------
  // The invalid cases (tests.js:33-62)

  /** The slices of a text made of three or four pieces. */
  lemma Cut3(src: string, a: string, b: string, c: string)
    requires src == a + b + c
    ensures src[..|a|] == a && src[|a|..|a| + |b|] == b && src[|a| + |b|..] == c
  {
  }

  lemma Cut4(src: string, a: string, b: string, c: string, d: string)
    requires src == a + b + c + d
    ensures src[..|a|] == a && src[|a|..|a| + |b|] == b
    ensures src[|a| + |b|..|a| + |b| + |c|] == c && src[|a| + |b| + |c|..] == d
  {
    Cut3(src, a + b, c, d);
    Cut3(a + b + c, a, b, c);
  }

  /** The arrow factory without a return type (tests.js:33-37): `const test =
      useMemo<boolean>(() => true, []);` becomes `const test = useMemo(():
      boolean => true, []);`. */
  const MoveArrowTree := Declarator(Range(6, 45), "const",
    Some(Call(Range(13, 45), Some("useMemo"), Some(TypeArgs(Range(20, 29), [TypeNode(Range(21, 28))])),
              [Arrow(Range(30, 40), false), Other(Range(42, 44))])))

  /** The factory's text in the first case: the signature without the call's
      opening parenthesis, then the body. A fact about literals alone, kept in
      a lemma of its own so that it is proved without the rest of the case in
      view. */
  lemma MoveArrowText()
    ensures "(()"[1..] + " => true, []);"[..8] == "() => true"
  {
  }

  lemma MoveArrowPieces(src: string)
    requires src == "const test = useMemo" + "<boolean>" + "(()" + " => true, []);"
    ensures |src| == 46
    ensures src[..20] == "const test = useMemo" && src[29..32] == "(()" && src[32..] == " => true, []);"
    ensures src[21..28] == "boolean" && src[30..40] == "() => true"
  {
    Cut4(src, "const test = useMemo", "<boolean>", "(()", " => true, []);");
    assert src[21..28] == src[20..29][1..8];
    assert src[30..40] == src[30..32] + src[32..40];
    assert src[30..32] == src[29..32][1..];
    assert src[32..40] == src[32..][..8];
    MoveArrowText();
  }

  lemma MoveArrowWellFormed(src: string)
    requires |src| == 46
    ensures WellFormed(src, MoveArrowTree)
  {
  }

  lemma MoveArrowFix(src: string)
    requires |src| == 46
    requires src[..20] == "const test = useMemo" && src[29..32] == "(()" && src[32..] == " => true, []);"
    requires src[21..28] == "boolean" && src[30..40] == "() => true"
    ensures var r := VisitDeclarator(src, MoveArrowTree);
      && r.Some? && r.value.messageId == MoveGenericToReturnType
      && ApplyEdits(src, r.value.fix) == "const test = useMemo" + "(()" + ": boolean" + " => true, []);"
  {
    ScanArrow(GetText(src, Range(30, 40)));
    MoveArrowWellFormed(src);
    MoveGenericEffect(src, MoveArrowTree);
  }

  /** The fixed text is, character for character, the test's expected output
      (comparing index by index is much cheaper for the solver than
      comparing a long literal with a concatenation as a whole). */
  lemma MoveArrowOutputText(x: string, y: string)
    requires x == "const test = useMemo((): boolean => true, []);"
    requires y == "const test = useMemo" + "(()" + ": boolean" + " => true, []);"
    ensures x == y
  {
    assert |x| == |y| == 46;
    forall i | 0 <= i < 46 ensures x[i] == y[i] {}
  }

  /** The report and the fixed output; the output is the valid case
      `ValidTypedArrowCase`, so fixing again finds nothing more to report. */
  lemma MoveArrowCase(src: string)
    requires src == "const test = useMemo" + "<boolean>" + "(()" + " => true, []);"
    ensures var r := VisitDeclarator(src, MoveArrowTree);
      && r.Some? && r.value.messageId == MoveGenericToReturnType
      && ApplyEdits(src, r.value.fix) == "const test = useMemo((): boolean => true, []);"
      && WellFormed(ApplyEdits(src, r.value.fix), ValidTypedArrowTree)
      && VisitDeclarator(ApplyEdits(src, r.value.fix), ValidTypedArrowTree) == None
  {
    MoveArrowPieces(src);
    MoveArrowFix(src);
    var r := VisitDeclarator(src, MoveArrowTree);
    MoveArrowOutputText("const test = useMemo((): boolean => true, []);", ApplyEdits(src, r.value.fix));
    ValidTypedArrowCase(ApplyEdits(src, r.value.fix));
  }


  /** The arrow factory that already has the return type (tests.js:40-44):
      `const test = useMemo<boolean>((): boolean => true, []);` becomes `const
      test = useMemo((): boolean => true, []);`. */
  const RemoveArrowTree := Declarator(Range(6, 54), "const",
    Some(Call(Range(13, 54), Some("useMemo"), Some(TypeArgs(Range(20, 29), [TypeNode(Range(21, 28))])),
              [Arrow(Range(30, 49), true), Other(Range(51, 53))])))

  /** The fixed text is the test's expected output, compared as above. */
  lemma RemoveArrowOutputText(x: string, y: string)
    requires x == "const test = useMemo((): boolean => true, []);"
    requires y == "const test = useMemo" + "((): boolean => true, []);"
    ensures x == y
  {
    assert |x| == |y| == 46;
    forall i | 0 <= i < 46 ensures x[i] == y[i] {}
  }

  /** The report and the fixed output; the output is the valid case
      `ValidTypedArrowCase`, so fixing again finds nothing more to report. */
  lemma RemoveArrowCase(src: string)
    requires src == "const test = useMemo" + "<boolean>" + "((): boolean => true, []);"
    ensures var r := VisitDeclarator(src, RemoveArrowTree);
      && r.Some? && r.value.messageId == RemoveGeneric
      && ApplyEdits(src, r.value.fix) == "const test = useMemo((): boolean => true, []);"
      && WellFormed(ApplyEdits(src, r.value.fix), ValidTypedArrowTree)
      && VisitDeclarator(ApplyEdits(src, r.value.fix), ValidTypedArrowTree) == None
  {
    Cut3(src, "const test = useMemo", "<boolean>", "((): boolean => true, []);");
    assert WellFormed(src, RemoveArrowTree);
    RemoveGenericEffect(src, RemoveArrowTree);
    var r := VisitDeclarator(src, RemoveArrowTree);
    RemoveArrowOutputText("const test = useMemo((): boolean => true, []);", ApplyEdits(src, r.value.fix));
    ValidTypedArrowCase(ApplyEdits(src, r.value.fix));
  }


  /** The function expression without a return type (tests.js:51-55): `const
      test = useMemo<boolean>(function() { return true; }, []);` becomes `const
      test = useMemo(function(): boolean { return true; }, []);`. */
  const MoveFunctionTree := Declarator(Range(6, 62), "const",
    Some(Call(Range(13, 62), Some("useMemo"), Some(TypeArgs(Range(20, 29), [TypeNode(Range(21, 28))])),
              [FnExpr(Range(30, 57), false), Other(Range(59, 61))])))

  /** The factory's text in the third case, as for the first. */
  lemma MoveFunctionText()
    ensures "(function()"[1..] + " { return true; }, []);"[..17] == "function() { return true; }"
  {
  }

  lemma MoveFunctionPieces(src: string)
    requires src == "const test = useMemo" + "<boolean>" + "(function()" + " { return true; }, []);"
    ensures |src| == 63
    ensures src[..20] == "const test = useMemo" && src[29..40] == "(function()" && src[40..] == " { return true; }, []);"
    ensures src[21..28] == "boolean" && src[30..57] == "function() { return true; }"
  {
    Cut4(src, "const test = useMemo", "<boolean>", "(function()", " { return true; }, []);");
    assert src[21..28] == src[20..29][1..8];
    assert src[30..57] == src[30..40] + src[40..57];
    assert src[30..40] == src[29..40][1..];
    assert src[40..57] == src[40..][..17];
    MoveFunctionText();
  }

  lemma MoveFunctionWellFormed(src: string)
    requires |src| == 63
    ensures WellFormed(src, MoveFunctionTree)
  {
  }

  lemma MoveFunctionFix(src: string)
    requires |src| == 63
    requires src[..20] == "const test = useMemo" && src[29..40] == "(function()" && src[40..] == " { return true; }, []);"
    requires src[21..28] == "boolean" && src[30..57] == "function() { return true; }"
    ensures var r := VisitDeclarator(src, MoveFunctionTree);
      && r.Some? && r.value.messageId == MoveGenericToReturnType
      && ApplyEdits(src, r.value.fix) == "const test = useMemo" + "(function()" + ": boolean" + " { return true; }, []);"
  {
    ScanFunction(GetText(src, Range(30, 57)));
    MoveFunctionWellFormed(src);
    MoveGenericEffect(src, MoveFunctionTree);
  }

  /** The fixed text is the test's expected output, compared as above in two
      halves. */
  lemma MoveFunctionOutputHead(x: string, y: string)
    requires x == "const test = useMemo(function(): boolean { return true; }, []);"
    requires y == "const test = useMemo" + "(function()" + ": boolean" + " { return true; }, []);"
    ensures forall i | 0 <= i < 40 :: x[i] == y[i]
  {
  }

  lemma MoveFunctionOutputTail(x: string, y: string)
    requires x == "const test = useMemo(function(): boolean { return true; }, []);"
    requires y == "const test = useMemo" + "(function()" + ": boolean" + " { return true; }, []);"
    ensures forall i | 40 <= i < 63 :: x[i] == y[i]
  {
  }

  lemma MoveFunctionOutputText(x: string, y: string)
    requires x == "const test = useMemo(function(): boolean { return true; }, []);"
    requires y == "const test = useMemo" + "(function()" + ": boolean" + " { return true; }, []);"
    ensures x == y
  {
    assert |x| == |y| == 63;
    MoveFunctionOutputHead(x, y);
    MoveFunctionOutputTail(x, y);
    assert forall i | 0 <= i < 63 :: x[i] == y[i];
  }


  /** The report and the fixed output; the output is the valid case
      `ValidTypedFunctionCase`, so fixing again finds nothing more to report. */
  lemma MoveFunctionCase(src: string)
    requires src == "const test = useMemo" + "<boolean>" + "(function()" + " { return true; }, []);"
    ensures var r := VisitDeclarator(src, MoveFunctionTree);
      && r.Some? && r.value.messageId == MoveGenericToReturnType
      && ApplyEdits(src, r.value.fix) == "const test = useMemo(function(): boolean { return true; }, []);"
      && WellFormed(ApplyEdits(src, r.value.fix), ValidTypedFunctionTree)
      && VisitDeclarator(ApplyEdits(src, r.value.fix), ValidTypedFunctionTree) == None
  {
    MoveFunctionPieces(src);
    MoveFunctionFix(src);
    var r := VisitDeclarator(src, MoveFunctionTree);
    MoveFunctionOutputText("const test = useMemo(function(): boolean { return true; }, []);", ApplyEdits(src, r.value.fix));
    ValidTypedFunctionCase(ApplyEdits(src, r.value.fix));
  }


  /** The function expression that already has the return type (tests.js:58-62):
      `const test = useMemo<boolean>(function(): boolean { return true; }, []);`
      becomes `const test = useMemo(function(): boolean { return true; }, []);`. */
  const RemoveFunctionTree := Declarator(Range(6, 71), "const",
    Some(Call(Range(13, 71), Some("useMemo"), Some(TypeArgs(Range(20, 29), [TypeNode(Range(21, 28))])),
              [FnExpr(Range(30, 66), true), Other(Range(68, 70))])))

  /** The fixed text is the test's expected output, compared as above in two
      halves. */
  lemma RemoveFunctionOutputHead(x: string, y: string)
    requires x == "const test = useMemo(function(): boolean { return true; }, []);"
    requires y == "const test = useMemo" + ("(function(): boolean" + " { return true; }, []);")
    ensures forall i | 0 <= i < 40 :: x[i] == y[i]
  {
  }

  lemma RemoveFunctionOutputTail(x: string, y: string)
    requires x == "const test = useMemo(function(): boolean { return true; }, []);"
    requires y == "const test = useMemo" + ("(function(): boolean" + " { return true; }, []);")
    ensures forall i | 40 <= i < 63 :: x[i] == y[i]
  {
  }

  lemma RemoveFunctionOutputText(x: string, y: string)
    requires x == "const test = useMemo(function(): boolean { return true; }, []);"
    requires y == "const test = useMemo" + ("(function(): boolean" + " { return true; }, []);")
    ensures x == y
  {
    assert |x| == |y| == 63;
    RemoveFunctionOutputHead(x, y);
    RemoveFunctionOutputTail(x, y);
    assert forall i | 0 <= i < 63 :: x[i] == y[i];
  }

  /** The report and the fixed output; the output is the valid case
      `ValidTypedFunctionCase`, so fixing again finds nothing more to report. */
  lemma RemoveFunctionCase(src: string)
    requires src == "const test = useMemo" + "<boolean>" + "(function(): boolean" + " { return true; }, []);"
    ensures var r := VisitDeclarator(src, RemoveFunctionTree);
      && r.Some? && r.value.messageId == RemoveGeneric
      && ApplyEdits(src, r.value.fix) == "const test = useMemo(function(): boolean { return true; }, []);"
      && WellFormed(ApplyEdits(src, r.value.fix), ValidTypedFunctionTree)
      && VisitDeclarator(ApplyEdits(src, r.value.fix), ValidTypedFunctionTree) == None
  {
    Cut4(src, "const test = useMemo", "<boolean>", "(function(): boolean", " { return true; }, []);");
    assert src[29..] == src[29..49] + src[49..];
    assert WellFormed(src, RemoveFunctionTree);
    RemoveGenericEffect(src, RemoveFunctionTree);
    var r := VisitDeclarator(src, RemoveFunctionTree);
    RemoveFunctionOutputText("const test = useMemo(function(): boolean { return true; }, []);", ApplyEdits(src, r.value.fix));
    ValidTypedFunctionCase(ApplyEdits(src, r.value.fix));
  }

  // ---------------------------------------------------------------------------
  // The valid cases (tests.js:18-25): no generic, no report. The second and
  // the fourth are also the outputs of the fixes above, so a fixed
  // declarator has nothing more to report.

  /** `const test = useMemo(() => true, []);` */
  const ValidArrowTree := Declarator(Range(6, 36), "const",
    Some(Call(Range(13, 36), Some("useMemo"), None,
              [Arrow(Range(21, 31), false), Other(Range(33, 35))])))

  lemma ValidArrowCase(src: string)
    requires src == "const test = useMemo(() => true, []);"
    ensures WellFormed(src, ValidArrowTree)
    ensures VisitDeclarator(src, ValidArrowTree) == None
  {
  }

  /** `const test = useMemo((): boolean => true, []);` */
  const ValidTypedArrowTree := Declarator(Range(6, 45), "const",
    Some(Call(Range(13, 45), Some("useMemo"), None,
              [Arrow(Range(21, 40), true), Other(Range(42, 44))])))

  lemma ValidTypedArrowCase(src: string)
    requires src == "const test = useMemo((): boolean => true, []);"
    ensures WellFormed(src, ValidTypedArrowTree)
    ensures VisitDeclarator(src, ValidTypedArrowTree) == None
  {
  }

  /** `const test = useMemo(function() { return true; }, []);` */
  const ValidFunctionTree := Declarator(Range(6, 53), "const",
    Some(Call(Range(13, 53), Some("useMemo"), None,
              [FnExpr(Range(21, 48), false), Other(Range(50, 52))])))

  lemma ValidFunctionCase(src: string)
    requires src == "const test = useMemo(function() { return true; }, []);"
    ensures WellFormed(src, ValidFunctionTree)
    ensures VisitDeclarator(src, ValidFunctionTree) == None
  {
  }

  /** `const test = useMemo(function(): boolean { return true; }, []);` */
  const ValidTypedFunctionTree := Declarator(Range(6, 62), "const",
    Some(Call(Range(13, 62), Some("useMemo"), None,
              [FnExpr(Range(21, 57), true), Other(Range(59, 61))])))

  lemma ValidTypedFunctionCase(src: string)
    requires src == "const test = useMemo(function(): boolean { return true; }, []);"
    ensures WellFormed(src, ValidTypedFunctionTree)
    ensures VisitDeclarator(src, ValidTypedFunctionTree) == None
  {
  }
}
