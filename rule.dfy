/** The `no-usememo-generics` rule: the `VariableDeclarator` visitor of
    `create` (rule.js:19-92) and the two `fix` callbacks it registers. The
    visitor reports `const x = useMemo<T>(factory, deps)`; the fix either
    moves `T` onto the factory's return type or deletes the generic. */
module Rule {
  import opened Wrappers
  import opened Ast
  import opened Fixer
  import Scanner

  datatype MessageId = MoveGenericToReturnType | RemoveGeneric

  /** One `context.report`: the reported node, the message and the edits the
      `fix` callback returns. */
  datatype Finding = Finding(node: Range, messageId: MessageId, fix: seq<Edit>)

  const HookName: string := "useMemo"

  predicate IsFunction(e: Expr) {
    e.Arrow? || e.FnExpr?
  }

  /** The whole shape the visitor asks for, as one conjunction: a `const`
      declarator initialised by a call of the identifier `useMemo` with a
      non-empty generic-argument list and a function as first argument. */
  predicate IsTarget(d: Declarator) {
    && d.kind == "const"
    && d.init.Some? && d.init.value.Call?
    && d.init.value.calleeName == Some(HookName)
    && d.init.value.typeArgs.Some? && |d.init.value.typeArgs.value.params| > 0
    && |d.init.value.args| > 0 && IsFunction(d.init.value.args[0])
  }

  /** The generic-argument list of a target. */
  function Generic(d: Declarator): TypeArgs
    requires IsTarget(d)
  {
    d.init.value.typeArgs.value
  }

  /** The factory function of a target. */
  function Factory(d: Declarator): Expr
    requires IsTarget(d)
  {
    d.init.value.args[0]
  }

  /** Where the move fix inserts the return type: `functionNode.range[0] +
      returnTypePosition`. */
  function InsertionOffset(src: string, d: Declarator): int
    requires IsTarget(d)
  {
    Factory(d).range.start + Scanner.ReturnTypePosition(GetText(src, Factory(d).range))
  }

  /** The `fix` of a `removeGeneric` report (rule.js:84-86). */
  function RemoveFix(typeArgs: TypeArgs): (r: seq<Edit>)
    // one edit, which deletes the generic-argument list and inserts nothing
    ensures |r| == 1 && r[0].Remove?
    ensures Start(r[0]) == typeArgs.range.start && End(r[0]) == typeArgs.range.end && Text(r[0]) == ""
  {
    [Remove(typeArgs.range.start, typeArgs.range.end)]
  }

  /** The `fix` of a `moveGenericToReturnType` report (rule.js:54-77): the
      removal of the generic, then, unless the scanner found nothing, the
      insertion of `": "` and the text of the first generic argument. */
  function MoveFix(src: string, typeArgs: TypeArgs, functionNode: Expr, returnTypePosition: int): (r: seq<Edit>)
    requires |typeArgs.params| > 0 && returnTypePosition >= -1
    // the removal of the generic-argument list comes first
    ensures 1 <= |r| <= 2 && r[0] == Remove(typeArgs.range.start, typeArgs.range.end)
    // a second edit exactly when the scanner found the parameter list
    ensures |r| == 2 <==> returnTypePosition != -1
    // it inserts ": " and the first generic argument's text at
    // `functionNode.range[0] + returnTypePosition`
    ensures |r| == 2 ==>
      && r[1].Insert?
      && Start(r[1]) == End(r[1]) == functionNode.range.start + returnTypePosition
      && Text(r[1]) == ": " + GetText(src, typeArgs.params[0].range)
  {
    var fixes := [Remove(typeArgs.range.start, typeArgs.range.end)];
    if returnTypePosition != -1 then
      fixes + [Insert(functionNode.range.start + returnTypePosition, ": " + GetText(src, typeArgs.params[0].range))]
    else
      fixes
  }

  /** The `VariableDeclarator` visitor: at most one report per declarator. */
  function VisitDeclarator(src: string, d: Declarator): (r: Option<Finding>)
    // no report unless the whole shape matches, and a report whenever it does
    ensures r.Some? <==> IsTarget(d)
    ensures r.Some? ==> r.value.node == d.range
    // the message depends only on whether the factory has a return type
    ensures r.Some? ==> (r.value.messageId == MoveGenericToReturnType <==> !Factory(d).hasReturnType)
    // removeGeneric: one edit, the removal of the generic-argument list
    ensures r.Some? && r.value.messageId == RemoveGeneric ==>
      r.value.fix == [Remove(Generic(d).range.start, Generic(d).range.end)]
    // moveGenericToReturnType: the removal first, and a second edit exactly
    // when the scanner found the empty parameter list
    ensures r.Some? && r.value.messageId == MoveGenericToReturnType ==>
      && 1 <= |r.value.fix| <= 2
      && r.value.fix[0] == Remove(Generic(d).range.start, Generic(d).range.end)
      && (|r.value.fix| == 2 <==> Scanner.ReturnTypePosition(GetText(src, Factory(d).range)) != -1)
      && (|r.value.fix| == 2 ==>
            r.value.fix[1] == Insert(InsertionOffset(src, d), ": " + GetText(src, Generic(d).params[0].range)))
  {
    if d.kind != "const" then None
    else if d.init.Some? && d.init.value.Call? && d.init.value.calleeName == Some(HookName) then
      var call := d.init.value;
      if call.typeArgs.Some? && |call.typeArgs.value.params| > 0 then
        if |call.args| > 0 && IsFunction(call.args[0]) then
          var functionNode := call.args[0];
          if !functionNode.hasReturnType then
            var returnTypePosition := Scanner.ReturnTypePosition(GetText(src, functionNode.range));
            Some(Finding(d.range, MoveGenericToReturnType,
                         MoveFix(src, call.typeArgs.value, functionNode, returnTypePosition)))
          else
            Some(Finding(d.range, RemoveGeneric, RemoveFix(call.typeArgs.value)))
        else None
      else None
    else None
  }

  // ---------------------------------------------------------------------------
  // Range safety and the effect of the fixes

  /** The parser's guarantees, unpacked for a target. */
  lemma TargetRanges(src: string, d: Declarator)
    requires WellFormed(src, d) && IsTarget(d)
    ensures Generic(d).range.start <= Generic(d).range.end <= Factory(d).range.start
    ensures Factory(d).range.start <= Factory(d).range.end <= |src|
    ensures Inside(Generic(d).params[0].range, Range(0, |src|))
  {
    var call := d.init.value;
    assert call.args[0] in call.args;
    assert Generic(d).params[0] in Generic(d).params;
  }

  /** The insertion point of a move fix lies after the removed generic and
      inside the factory's range, past at least the two characters of `()`. */
  lemma InsertionInsideFactory(src: string, d: Declarator)
    requires WellFormed(src, d) && IsTarget(d)
    requires Scanner.ReturnTypePosition(GetText(src, Factory(d).range)) != -1
    ensures Generic(d).range.end <= Factory(d).range.start < InsertionOffset(src, d) <= Factory(d).range.end
    ensures Factory(d).range.start + 2 <= InsertionOffset(src, d)
  {
    TargetRanges(src, d);
  }

  /** A `removeGeneric` fix deletes the generic-argument list and leaves every
      other character, the existing return type included, as it was. */
  lemma RemoveGenericEffect(src: string, d: Declarator)
    requires WellFormed(src, d) && IsTarget(d) && Factory(d).hasReturnType
    ensures Ordered(VisitDeclarator(src, d).value.fix, 0, |src|)
    ensures ApplyEdits(src, VisitDeclarator(src, d).value.fix)
         == src[..Generic(d).range.start] + src[Generic(d).range.end..]
  {
    TargetRanges(src, d);
    ApplyRemove(src, Generic(d).range.start, Generic(d).range.end);
  }

  /** The two edits of a complete move fix. */
  lemma MoveFixEdits(src: string, d: Declarator)
    requires IsTarget(d) && !Factory(d).hasReturnType
    requires Scanner.ReturnTypePosition(GetText(src, Factory(d).range)) != -1
    ensures InsertionOffset(src, d) >= 0
    ensures VisitDeclarator(src, d).value.fix
         == [Remove(Generic(d).range.start, Generic(d).range.end),
             Insert(InsertionOffset(src, d), ": " + GetText(src, Generic(d).params[0].range))]
  {
  }

  /** A `moveGenericToReturnType` fix, when the scanner succeeded, deletes the
      generic-argument list and splices `": T"` in at the insertion point, `T`
      being the text of the first generic argument. */
  lemma MoveGenericEffect(src: string, d: Declarator)
    requires WellFormed(src, d) && IsTarget(d) && !Factory(d).hasReturnType
    requires Scanner.ReturnTypePosition(GetText(src, Factory(d).range)) != -1
    ensures Generic(d).range.end <= InsertionOffset(src, d) <= |src|
    ensures Ordered(VisitDeclarator(src, d).value.fix, 0, |src|)
    ensures ApplyEdits(src, VisitDeclarator(src, d).value.fix)
         == src[..Generic(d).range.start] + src[Generic(d).range.end..InsertionOffset(src, d)]
            + (": " + GetText(src, Generic(d).params[0].range)) + src[InsertionOffset(src, d)..]
  {
    InsertionInsideFactory(src, d);
    MoveFixEdits(src, d);
    ApplyRemoveThenInsert(src, Generic(d).range.start, Generic(d).range.end, InsertionOffset(src, d),
                          ": " + GetText(src, Generic(d).params[0].range));
  }

  /** When the scanner finds no empty parameter list, a
      `moveGenericToReturnType` fix only deletes the generic-argument list. */
  lemma PartialMoveEffect(src: string, d: Declarator)
    requires WellFormed(src, d) && IsTarget(d) && !Factory(d).hasReturnType
    requires Scanner.ReturnTypePosition(GetText(src, Factory(d).range)) == -1
    ensures Ordered(VisitDeclarator(src, d).value.fix, 0, |src|)
    ensures ApplyEdits(src, VisitDeclarator(src, d).value.fix)
         == src[..Generic(d).range.start] + src[Generic(d).range.end..]
  {
    TargetRanges(src, d);
    ApplyRemove(src, Generic(d).range.start, Generic(d).range.end);
  }

  /** Every fix the rule plans is a list of non-overlapping edits, in source
      order and within the source. */
  lemma FixIsOrdered(src: string, d: Declarator)
    requires WellFormed(src, d) && IsTarget(d)
    ensures Ordered(VisitDeclarator(src, d).value.fix, 0, |src|)
  {
    if Factory(d).hasReturnType {
      RemoveGenericEffect(src, d);
    } else if Scanner.ReturnTypePosition(GetText(src, Factory(d).range)) == -1 {
      PartialMoveEffect(src, d);
    } else {
      MoveGenericEffect(src, d);
    }
  }
}
